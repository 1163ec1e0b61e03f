/** How deep the importer's recursion gets: the calls of CreateTypeSymbol and CreateFieldSymbol, by
    the keys they enter, under a bound on the depth of calls
    (Components/DiaProcessor/DiaInterface.cpp). */
module SearchDepth {
  import opened Sets
  import opened Symbols
  import opened DiaGraph
  import opened DiaFunctions
  import opened PdbImport

  /** The types of a class's members, in order. */
  function MemberTypes(members: seq<Member>): seq<u32> {
    if members == [] then []
    else MemberTypes(members[..|members| - 1])
         + if members[|members| - 1].ofType.Some? then [members[|members| - 1].ofType.value] else []
  }

  /** The keys after CreateTypeSymbol(id), or None if that takes more than `depth` nested calls. A
      typedef is followed without a look at the keys. */
  function Search(g: Graph, id: u32, keys: set<u32>, depth: nat): Option<set<u32>>
    decreases depth, 0
  {
    if depth == 0 then None
    else if TypedefTarget(g, id).Some? then Search(g, TypedefTarget(g, id).value, keys + {id}, depth - 1)
    else if HasMembers(g, id) && Supported(g, id) then
      SearchNew(g, MemberTypes(g[id].members), keys + {id}, depth - 1)
    else Some(keys + {id})
  }

  /** The keys after each of the ids has been looked up and created if it was not there. */
  function SearchNew(g: Graph, ids: seq<u32>, keys: set<u32>, depth: nat): Option<set<u32>>
    decreases depth, 1 + |ids|
  {
    if ids == [] then Some(keys)
    else
      var before :- SearchNew(g, ids[..|ids| - 1], keys, depth);
      if ids[|ids| - 1] in before then Some(before) else Search(g, ids[|ids| - 1], before, depth)
  }

  /** The keys after all of the ids have been created, known or not. */
  function SearchEach(g: Graph, ids: seq<u32>, depth: nat): Option<set<u32>> {
    if ids == [] then Some({})
    else
      var before :- SearchEach(g, ids[..|ids| - 1], depth);
      Search(g, ids[|ids| - 1], before, depth)
  }

  /** A whole import: the listed types, then those that functions bring in. */
  function SearchAll(g: Graph, listed: seq<u32>, brought: seq<u32>, depth: nat): Option<set<u32>> {
    var keys :- SearchEach(g, listed, depth);
    SearchNew(g, brought, keys, depth)
  }

  ghost function RootIds(listed: seq<u32>, brought: seq<u32>): set<u32> {
    Ids(listed) + Ids(brought)
  }

  lemma {:induction false} MemberTypesAre(members: seq<Member>, id: u32)
    ensures id in MemberTypes(members) <==> exists i :: 0 <= i < |members| && members[i].ofType == Some(id)
  {
    if members != [] {
      MemberTypesAre(members[..|members| - 1], id);
      if i :| 0 <= i < |members| && members[i].ofType == Some(id) {
        if i < |members| - 1 {
          assert members[..|members| - 1][i].ofType == Some(id);
        }
      }
    }
  }

  lemma {:induction false} EdgesOfSearch(g: Graph, id: u32, to: u32)
    ensures Edge(g, id, to) <==>
            if TypedefTarget(g, id).Some? then TypedefTarget(g, id).value == to
            else HasMembers(g, id) && Supported(g, id) && to in MemberTypes(g[id].members)
  {
    if HasMembers(g, id) {
      MemberTypesAre(g[id].members, to);
    }
  }

  // ---------------------------------------------------------------- what an ended search shows

  /** Creating this type ended, at some time and depth. */
  ghost predicate Ended(g: Graph, id: u32) {
    exists keys, depth :: Search(g, id, keys, depth).Some?
  }

  ghost predicate EdgesIn(g: Graph, id: u32, keys: set<u32>) {
    forall to :: Edge(g, id, to) ==> to in keys
  }

  /** Everything entered between two points was created to the end, with all it refers to. */
  ghost predicate Completed(g: Graph, before: set<u32>, after: set<u32>) {
    before <= after && forall id :: id in after && id !in before ==> Ended(g, id) && EdgesIn(g, id, after)
  }

  lemma {:induction false} CompletedTwice(g: Graph, a: set<u32>, b: set<u32>, c: set<u32>)
    requires Completed(g, a, b) && Completed(g, b, c)
    ensures Completed(g, a, c)
  {
    forall id | id in c && id !in a
      ensures Ended(g, id) && EdgesIn(g, id, c)
    {
      if id in b {
        assert EdgesIn(g, id, b);
      }
    }
  }

  lemma {:induction false} CompletedWithFirst(g: Graph, keys: set<u32>, id: u32, after: set<u32>)
    requires Completed(g, keys + {id}, after) && Ended(g, id) && EdgesIn(g, id, after)
    ensures Completed(g, keys, after)
  {}

  lemma {:induction false} SearchCompletes(g: Graph, id: u32, keys: set<u32>, depth: nat)
    requires Search(g, id, keys, depth).Some?
    ensures Completed(g, keys, Search(g, id, keys, depth).value)
    ensures id in Search(g, id, keys, depth).value
    ensures EdgesIn(g, id, Search(g, id, keys, depth).value)
    decreases depth, 0
  {
    var after := Search(g, id, keys, depth).value;
    assert Ended(g, id);
    forall to
      ensures Edge(g, id, to) <==>
              if TypedefTarget(g, id).Some? then TypedefTarget(g, id).value == to
              else HasMembers(g, id) && Supported(g, id) && to in MemberTypes(g[id].members)
    {
      EdgesOfSearch(g, id, to);
    }
    if TypedefTarget(g, id).Some? {
      SearchCompletes(g, TypedefTarget(g, id).value, keys + {id}, depth - 1);
    } else if HasMembers(g, id) && Supported(g, id) {
      SearchNewCompletes(g, MemberTypes(g[id].members), keys + {id}, depth - 1);
    }
    CompletedWithFirst(g, keys, id, after);
  }

  lemma {:induction false} SearchNewCompletes(g: Graph, ids: seq<u32>, keys: set<u32>, depth: nat)
    requires SearchNew(g, ids, keys, depth).Some?
    ensures Completed(g, keys, SearchNew(g, ids, keys, depth).value)
    ensures Ids(ids) <= SearchNew(g, ids, keys, depth).value
    decreases depth, 1 + |ids|
  {
    if ids != [] {
      var before := SearchNew(g, ids[..|ids| - 1], keys, depth).value;
      SearchNewCompletes(g, ids[..|ids| - 1], keys, depth);
      AllButLastId(ids);
      if ids[|ids| - 1] !in before {
        SearchCompletes(g, ids[|ids| - 1], before, depth);
        CompletedTwice(g, keys, before, SearchNew(g, ids, keys, depth).value);
      }
    }
  }

  lemma AllButLastId(ids: seq<u32>)
    requires ids != []
    ensures Ids(ids) == Ids(ids[..|ids| - 1]) + {ids[|ids| - 1]}
  {
    assert ids == ids[..|ids| - 1] + [ids[|ids| - 1]];
  }

  lemma {:induction false} SearchEachCompletes(g: Graph, ids: seq<u32>, depth: nat)
    requires SearchEach(g, ids, depth).Some?
    ensures Completed(g, {}, SearchEach(g, ids, depth).value)
    ensures Ids(ids) <= SearchEach(g, ids, depth).value
  {
    if ids != [] {
      var before := SearchEach(g, ids[..|ids| - 1], depth).value;
      SearchEachCompletes(g, ids[..|ids| - 1], depth);
      AllButLastId(ids);
      SearchCompletes(g, ids[|ids| - 1], before, depth);
      CompletedTwice(g, {}, before, SearchEach(g, ids, depth).value);
    }
  }

  /** Each step along a chain of typedefs is one call deeper. */
  lemma {:induction false} DeeperThanChain(g: Graph, id: u32, keys: set<u32>, depth: nat)
    requires Search(g, id, keys, depth).Some?
    ensures Follow(g, id, depth).None?
    decreases depth
  {
    if TypedefTarget(g, id).Some? {
      DeeperThanChain(g, TypedefTarget(g, id).value, keys + {id}, depth - 1);
    }
  }

  lemma {:induction false} EverythingFound(g: Graph, listed: seq<u32>, brought: seq<u32>, depth: nat)
    requires SearchAll(g, listed, brought, depth).Some?
    ensures Reachable(g, RootIds(listed, brought)) <= SearchAll(g, listed, brought, depth).value
    ensures forall id :: id in SearchAll(g, listed, brought, depth).value ==> Ended(g, id)
  {
    var keys := SearchEach(g, listed, depth).value;
    var after := SearchAll(g, listed, brought, depth).value;
    SearchEachCompletes(g, listed, depth);
    SearchNewCompletes(g, brought, keys, depth);
    CompletedTwice(g, {}, keys, after);
    forall from, to | from in after && Edge(g, from, to)
      ensures to in after
    {
      assert EdgesIn(g, from, after);
    }
    ReachableIsLeast(g, RootIds(listed, brought), after);
  }

  lemma {:induction false} EndedMeansAcyclic(g: Graph, listed: seq<u32>, brought: seq<u32>, depth: nat)
    requires GraphOk(g) && SearchAll(g, listed, brought, depth).Some?
    ensures TypedefsAcyclic(g, Reachable(g, RootIds(listed, brought)))
  {
    EverythingFound(g, listed, brought, depth);
    forall id | id in Reachable(g, RootIds(listed, brought))
      ensures exists n: nat :: Follow(g, id, n).None?
    {
      var keys', depth' :| Search(g, id, keys', depth').Some?;
      DeeperThanChain(g, id, keys', depth');
    }
    ReachableIsClosed(g, RootIds(listed, brought));
    TypedefRecursionEndsIff(g, Reachable(g, RootIds(listed, brought)));
  }

  lemma {:induction false} SearchStaysInside(g: Graph, reach: set<u32>, id: u32, keys: set<u32>, depth: nat)
    requires ClosedUnderEdges(g, reach) && keys <= reach && id in reach
    requires Search(g, id, keys, depth).Some?
    ensures Search(g, id, keys, depth).value <= reach
    decreases depth, 0
  {
    if TypedefTarget(g, id).Some? {
      assert Edge(g, id, TypedefTarget(g, id).value);
      SearchStaysInside(g, reach, TypedefTarget(g, id).value, keys + {id}, depth - 1);
    } else if HasMembers(g, id) && Supported(g, id) {
      forall to | to in MemberTypes(g[id].members)
        ensures to in reach
      {
        EdgesOfSearch(g, id, to);
        assert Edge(g, id, to);
      }
      SearchNewStaysInside(g, reach, MemberTypes(g[id].members), keys + {id}, depth - 1);
    }
  }

  lemma {:induction false} SearchNewStaysInside(g: Graph, reach: set<u32>, ids: seq<u32>, keys: set<u32>, depth: nat)
    requires ClosedUnderEdges(g, reach) && keys <= reach && forall id :: id in ids ==> id in reach
    requires SearchNew(g, ids, keys, depth).Some?
    ensures SearchNew(g, ids, keys, depth).value <= reach
    decreases depth, 1 + |ids|
  {
    if ids != [] {
      SearchNewStaysInside(g, reach, ids[..|ids| - 1], keys, depth);
      var before := SearchNew(g, ids[..|ids| - 1], keys, depth).value;
      if ids[|ids| - 1] !in before {
        SearchStaysInside(g, reach, ids[|ids| - 1], before, depth);
      }
    }
  }

  lemma {:induction false} SearchEachStaysInside(g: Graph, reach: set<u32>, ids: seq<u32>, depth: nat)
    requires ClosedUnderEdges(g, reach) && forall id :: id in ids ==> id in reach
    requires SearchEach(g, ids, depth).Some?
    ensures SearchEach(g, ids, depth).value <= reach
  {
    if ids != [] {
      SearchEachStaysInside(g, reach, ids[..|ids| - 1], depth);
      SearchStaysInside(g, reach, ids[|ids| - 1], SearchEach(g, ids[..|ids| - 1], depth).value, depth);
    }
  }

  /** A search that ends has entered the same keys as the import: the reachable ids. */
  lemma {:induction false} SearchFindsReachable(g: Graph, listed: seq<u32>, brought: seq<u32>, depth: nat)
    requires GraphOk(g) && RootIds(listed, brought) <= g.Keys
    requires SearchAll(g, listed, brought, depth).Some?
    ensures SearchAll(g, listed, brought, depth).value == Reachable(g, RootIds(listed, brought))
  {
    var reach := Reachable(g, RootIds(listed, brought));
    RootsAreReachable(g, RootIds(listed, brought));
    ReachableIsClosed(g, RootIds(listed, brought));
    SearchEachStaysInside(g, reach, listed, depth);
    SearchNewStaysInside(g, reach, brought, SearchEach(g, listed, depth).value, depth);
    EverythingFound(g, listed, brought, depth);
  }

  // ---------------------------------------------------------------- how deep is deep enough

  /** Ranks below `ranks`, and all of reach to be found. */
  ghost predicate Bounded(g: Graph, reach: set<u32>, rank: map<u32, nat>, ranks: nat) {
    IsRank(g, reach, rank) && ClosedUnderEdges(g, reach) && forall id :: id in reach ==> rank[id] < ranks
  }

  /** Every nested call finds a new id or goes down in rank. */
  ghost function DepthFor(reach: set<u32>, rank: map<u32, nat>, ranks: nat, id: u32, keys: set<u32>): nat
    requires id in rank
  {
    |reach - keys - {id}| * ranks + rank[id] + 1
  }

  lemma {:induction false} FewerLeft(left: nat, most: nat, ranks: nat)
    requires left < most
    ensures left * ranks + ranks <= most * ranks
  {
    assert most * ranks == left * ranks + ranks + (most - left - 1) * ranks;
  }

  lemma {:induction false} TypedefDepth(
      g: Graph, reach: set<u32>, rank: map<u32, nat>, ranks: nat, id: u32, keys: set<u32>)
    requires Bounded(g, reach, rank, ranks) && id in reach && TypedefTarget(g, id).Some?
    ensures TypedefTarget(g, id).value in reach
    ensures DepthFor(reach, rank, ranks, TypedefTarget(g, id).value, keys + {id})
          < DepthFor(reach, rank, ranks, id, keys)
  {
    var next := TypedefTarget(g, id).value;
    var left, most := reach - (keys + {id}) - {next}, reach - keys - {id};
    SubsetSize(left, most);
    if |left| < |most| {
      FewerLeft(|left|, |most|, ranks);
    }
  }

  lemma {:induction false} MemberDepth(
      g: Graph, reach: set<u32>, rank: map<u32, nat>, ranks: nat, id: u32, keys: set<u32>, next: u32, known: set<u32>)
    requires Bounded(g, reach, rank, ranks) && id in reach && next in reach
    requires keys + {id} <= known && next !in known
    ensures DepthFor(reach, rank, ranks, next, known) < DepthFor(reach, rank, ranks, id, keys)
  {
    var left, most := reach - known - {next}, reach - keys - {id};
    assert next in most && next !in left;
    SubsetSize(left, most);
    FewerLeft(|left|, |most|, ranks);
  }

  lemma {:induction false} DeepEnough(
      g: Graph, reach: set<u32>, rank: map<u32, nat>, ranks: nat, id: u32, keys: set<u32>, depth: nat)
    requires Bounded(g, reach, rank, ranks) && id in reach && depth >= DepthFor(reach, rank, ranks, id, keys)
    ensures Search(g, id, keys, depth).Some?
    decreases depth, 0
  {
    if TypedefTarget(g, id).Some? {
      TypedefDepth(g, reach, rank, ranks, id, keys);
      DeepEnough(g, reach, rank, ranks, TypedefTarget(g, id).value, keys + {id}, depth - 1);
    } else if HasMembers(g, id) && Supported(g, id) {
      var ids := MemberTypes(g[id].members);
      forall to | to in ids
        ensures to in reach
      {
        EdgesOfSearch(g, id, to);
        assert Edge(g, id, to);
      }
      DeepEnoughForMembers(g, reach, rank, ranks, id, keys, ids, depth - 1);
    }
  }

  lemma {:induction false} DeepEnoughForMembers(
      g: Graph, reach: set<u32>, rank: map<u32, nat>, ranks: nat, id: u32, keys: set<u32>, ids: seq<u32>, depth: nat)
    requires Bounded(g, reach, rank, ranks) && id in reach && depth + 1 >= DepthFor(reach, rank, ranks, id, keys)
    requires forall to :: to in ids ==> to in reach
    ensures SearchNew(g, ids, keys + {id}, depth).Some?
    decreases depth, 1 + |ids|
  {
    if ids != [] {
      DeepEnoughForMembers(g, reach, rank, ranks, id, keys, ids[..|ids| - 1], depth);
      var before, next := SearchNew(g, ids[..|ids| - 1], keys + {id}, depth).value, ids[|ids| - 1];
      if next !in before {
        SearchNewCompletes(g, ids[..|ids| - 1], keys + {id}, depth);
        MemberDepth(g, reach, rank, ranks, id, keys, next, before);
        DeepEnough(g, reach, rank, ranks, next, before, depth);
      }
    }
  }

  function EnoughDepth(types: nat, ranks: nat): nat {
    types * ranks + ranks
  }

  lemma {:induction false} NeverDeeper(left: nat, types: nat, ranks: nat, r: nat)
    requires left <= types && r < ranks
    ensures left * ranks + r + 1 <= EnoughDepth(types, ranks)
  {
    if left < types {
      FewerLeft(left, types, ranks);
    }
  }

  lemma {:induction false} DeepEnoughForAny(
      g: Graph, reach: set<u32>, rank: map<u32, nat>, ranks: nat, id: u32, keys: set<u32>)
    requires Bounded(g, reach, rank, ranks) && id in reach
    ensures Search(g, id, keys, EnoughDepth(|reach|, ranks)).Some?
  {
    SubsetSize(reach - keys - {id}, reach);
    NeverDeeper(|reach - keys - {id}|, |reach|, ranks, rank[id]);
    DeepEnough(g, reach, rank, ranks, id, keys, EnoughDepth(|reach|, ranks));
  }

  lemma {:induction false} EachEnds(g: Graph, reach: set<u32>, rank: map<u32, nat>, ranks: nat, ids: seq<u32>)
    requires Bounded(g, reach, rank, ranks) && Ids(ids) <= reach
    ensures SearchEach(g, ids, EnoughDepth(|reach|, ranks)).Some?
  {
    if ids != [] {
      AllButLastId(ids);
      EachEnds(g, reach, rank, ranks, ids[..|ids| - 1]);
      var before := SearchEach(g, ids[..|ids| - 1], EnoughDepth(|reach|, ranks)).value;
      DeepEnoughForAny(g, reach, rank, ranks, ids[|ids| - 1], before);
    }
  }

  lemma {:induction false} NewEnds(
      g: Graph, reach: set<u32>, rank: map<u32, nat>, ranks: nat, ids: seq<u32>, keys: set<u32>)
    requires Bounded(g, reach, rank, ranks) && Ids(ids) <= reach
    ensures SearchNew(g, ids, keys, EnoughDepth(|reach|, ranks)).Some?
  {
    if ids != [] {
      AllButLastId(ids);
      NewEnds(g, reach, rank, ranks, ids[..|ids| - 1], keys);
      var before := SearchNew(g, ids[..|ids| - 1], keys, EnoughDepth(|reach|, ranks)).value;
      DeepEnoughForAny(g, reach, rank, ranks, ids[|ids| - 1], before);
    }
  }

  lemma {:induction false} RanksBelow(s: set<u32>, rank: map<u32, nat>) returns (ranks: nat)
    requires s <= rank.Keys
    ensures forall id :: id in s ==> rank[id] < ranks
    decreases s
  {
    ranks := 0;
    if s != {} {
      var id :| id in s;
      var others := RanksBelow(s - {id}, rank);
      ranks := if others > rank[id] then others else rank[id] + 1;
    }
  }

  lemma {:induction false} BoundedMeansEnded(
      g: Graph, reach: set<u32>, rank: map<u32, nat>, ranks: nat, listed: seq<u32>, brought: seq<u32>)
    requires Bounded(g, reach, rank, ranks) && RootIds(listed, brought) <= reach
    ensures SearchAll(g, listed, brought, EnoughDepth(|reach|, ranks)).Some?
  {
    EachEnds(g, reach, rank, ranks, listed);
    NewEnds(g, reach, rank, ranks, brought, SearchEach(g, listed, EnoughDepth(|reach|, ranks)).value);
  }

  lemma {:induction false} AcyclicMeansEnded(g: Graph, listed: seq<u32>, brought: seq<u32>) returns (depth: nat)
    requires GraphOk(g) && RootIds(listed, brought) <= g.Keys
    requires TypedefsAcyclic(g, Reachable(g, RootIds(listed, brought)))
    ensures SearchAll(g, listed, brought, depth).Some?
  {
    var reach := Reachable(g, RootIds(listed, brought));
    RootsAreReachable(g, RootIds(listed, brought));
    ReachableIsClosed(g, RootIds(listed, brought));
    var rank := AcyclicHasRank(g, reach);
    var ranks := RanksBelow(reach, rank);
    BoundedMeansEnded(g, reach, rank, ranks, listed, brought);
    depth := EnoughDepth(|reach|, ranks);
  }

  ghost predicate ImportEnds(g: Graph, listed: seq<u32>, brought: seq<u32>) {
    exists depth: nat :: SearchAll(g, listed, brought, depth).Some?
  }

  /** An import ends, at some depth of calls, exactly when no reachable typedef leads back to itself;
      otherwise no depth is enough. */
  lemma {:induction false} ImportEndsIff(g: Graph, listed: seq<u32>, brought: seq<u32>)
    requires GraphOk(g) && RootIds(listed, brought) <= g.Keys
    ensures ImportEnds(g, listed, brought) <==> TypedefsAcyclic(g, Reachable(g, RootIds(listed, brought)))
  {
    if ImportEnds(g, listed, brought) {
      var depth: nat :| SearchAll(g, listed, brought, depth).Some?;
      EndedMeansAcyclic(g, listed, brought, depth);
    } else if TypedefsAcyclic(g, Reachable(g, RootIds(listed, brought))) {
      var _ := AcyclicMeansEnded(g, listed, brought);
    }
  }

  // ---------------------------------------------------------------- the import of a file

  /** The types that reading a function looks up, in order. */
  function BroughtBy(g: Graph, before: FunctionSymbol, f: DiaFunction): seq<u32> {
    if f.ofType.None? then []
    else
      var t := f.ofType.value;
      (if t.returnType.Some? then [t.returnType.value] else [])
      + (if Or(t.argumentCount, before.argumentCount) > 0 then ArgumentsOf(g, t) else [])
  }

  function BroughtByAll(g: Graph, fs: seq<DiaFunction>): seq<u32> {
    if fs == [] then []
    else
      var before := FunctionsFrom(g, map[], fs[..|fs| - 1]);
      BroughtByAll(g, fs[..|fs| - 1]) + BroughtBy(g, Entry(before, fs[|fs| - 1].id), fs[|fs| - 1])
  }

  lemma {:induction false} BroughtAreRoots(g: Graph, fs: seq<DiaFunction>)
    ensures Ids(BroughtByAll(g, fs)) == FunctionRoots(g, map[], fs)
  {
    if fs != [] {
      BroughtAreRoots(g, fs[..|fs| - 1]);
      var before := Entry(FunctionsFrom(g, map[], fs[..|fs| - 1]), fs[|fs| - 1].id);
      BroughtByOneAreRoots(g, before, fs[|fs| - 1]);
      IdsOfBoth(BroughtByAll(g, fs[..|fs| - 1]), BroughtBy(g, before, fs[|fs| - 1]));
    }
  }

  lemma {:induction false} BroughtByOneAreRoots(g: Graph, before: FunctionSymbol, f: DiaFunction)
    ensures Ids(BroughtBy(g, before, f)) == RootsOf(g, before, f)
  {
    if f.ofType.Some? {
      var t := f.ofType.value;
      IdsOfBoth(if t.returnType.Some? then [t.returnType.value] else [],
                if Or(t.argumentCount, before.argumentCount) > 0 then ArgumentsOf(g, t) else []);
    }
  }

  lemma IdsOfBoth(a: seq<u32>, b: seq<u32>)
    ensures Ids(a + b) == Ids(a) + Ids(b)
  {}

  function ListedIds(file: PdbFile): seq<u32> {
    file.baseTypes + file.udts + file.enums + file.typedefs + file.pointerTypes
  }

  ghost predicate FileImportEnds(file: PdbFile) {
    ImportEnds(file.graph, ListedIds(file), BroughtByAll(file.graph, file.functions))
  }

  /** What an import of a file needs to end is what CreateUsymFromFile asks for. */
  lemma {:induction false} FileImportEndsIff(file: PdbFile)
    requires file.Ok()
    ensures FileImportEnds(file) <==> TypedefsAcyclic(file.graph, file.ReachableTypes())
  {
    IdsOfBoth(file.baseTypes + file.udts + file.enums + file.typedefs, file.pointerTypes);
    IdsOfBoth(file.baseTypes + file.udts + file.enums, file.typedefs);
    IdsOfBoth(file.baseTypes + file.udts, file.enums);
    IdsOfBoth(file.baseTypes, file.udts);
    BroughtAreRoots(file.graph, file.functions);
    FunctionRootsInGraph(file.graph, map[], file.functions);
    ImportEndsIff(file.graph, ListedIds(file), BroughtByAll(file.graph, file.functions));
  }

  /** A file with one typedef, of itself. */
  function SelfTypedef(): PdbFile {
    PdbFile(map[1 := DiaSymbol(TagTypedef, [], Some(4), None, false, None, [], Some(1))], [], [], [], [1], [], [])
  }

  /** No depth of calls is enough to import it. */
  lemma {:induction false} SelfTypedefNeverEnds()
    ensures SelfTypedef().Ok() && !FileImportEnds(SelfTypedef())
  {
    var file := SelfTypedef();
    RootsAreReachable(file.graph, file.Roots());
    assert 1 in Ids(file.typedefs);
    assert Follow(file.graph, 1, 1) == Some(1);
    FileImportEndsIff(file);
  }
}

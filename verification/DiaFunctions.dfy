/** The function records the importer is to build
    (BuildFunctionList, Components/DiaProcessor/DiaInterface.cpp). */
module DiaFunctions {
  import opened Symbols
  import opened Purge
  import opened DiaGraph

  ghost predicate FunctionOk(g: Graph, f: DiaFunction) {
    f.ofType.Some? ==>
      var t := f.ofType.value;
      && (t.returnType.Some? ==> t.returnType.value in g)
      && (t.thisType.Some? ==> t.thisType.value in g)
      && forall i :: 0 <= i < |t.arguments| ==> t.arguments[i] in g
  }

  predicate IsStub(g: Graph, id: u32) {
    id in g && g[id].tag.TagBaseType? && g[id].noType
  }

  /** Leading stub parameters are dropped; a later one marks variable arguments and stays. */
  function SkipStubs(g: Graph, arguments: seq<u32>): seq<u32> {
    if arguments != [] && IsStub(g, arguments[0]) then SkipStubs(g, arguments[1..]) else arguments
  }

  function ArgumentsOf(g: Graph, t: FunctionType): seq<u32> {
    (if t.thisType.Some? then [t.thisType.value] else []) + SkipStubs(g, t.arguments)
  }

  function Or<T>(a: Option<T>, otherwise: T): T {
    if a.Some? then a.value else otherwise
  }

  /** The record after f has been read into it. */
  function Filled(g: Graph, before: FunctionSymbol, f: DiaFunction): FunctionSymbol {
    if f.ofType.None? then before.(id := f.id, name := f.name)
    else
      var t := f.ofType.value;
      var count := Or(t.argumentCount, before.argumentCount);
      FunctionSymbol(
        f.id, f.name, Or(t.returnType, before.returnTypeId), count,
        if count > 0 then before.argumentTypeIds + ArgumentsOf(g, t) else before.argumentTypeIds,
        Or(t.callingConvention, before.callingConvention), Or(f.virtualAddress, before.virtualAddress))
  }

  function Entry(functions: FunctionTable, id: u32): FunctionSymbol {
    if id in functions then functions[id] else EMPTY_FUNCTION
  }

  function FunctionsFrom(g: Graph, functions: FunctionTable, fs: seq<DiaFunction>): FunctionTable {
    if fs == [] then functions
    else
      var before := FunctionsFrom(g, functions, fs[..|fs| - 1]);
      var f := fs[|fs| - 1];
      before[f.id := Filled(g, Entry(before, f.id), f)]
  }

  /** The types that reading f into `before` brings in. */
  function RootsOf(g: Graph, before: FunctionSymbol, f: DiaFunction): set<u32> {
    if f.ofType.None? then {}
    else
      var t := f.ofType.value;
      (if t.returnType.Some? then {t.returnType.value} else {})
      + (if Or(t.argumentCount, before.argumentCount) > 0 then Ids(ArgumentsOf(g, t)) else {})
  }

  function FunctionRoots(g: Graph, functions: FunctionTable, fs: seq<DiaFunction>): set<u32> {
    if fs == [] then {}
    else
      var f := fs[|fs| - 1];
      FunctionRoots(g, functions, fs[..|fs| - 1])
      + RootsOf(g, Entry(FunctionsFrom(g, functions, fs[..|fs| - 1]), f.id), f)
  }

  lemma FilledRefsOk(g: Graph, before: FunctionSymbol, f: DiaFunction, types: TypeTable)
    requires FunctionRefsOk(types, before)
    requires RootsOf(g, before, f) <= types.Keys
    ensures FunctionRefsOk(types, Filled(g, before, f))
  {
    if f.ofType.Some? && Or(f.ofType.value.argumentCount, before.argumentCount) > 0 {
      var arguments := ArgumentsOf(g, f.ofType.value);
      var ids := Filled(g, before, f).argumentTypeIds;
      forall i | 0 <= i < |ids|
        ensures RefOk(types, ids[i])
      {
        if i >= |before.argumentTypeIds| {
          assert ids[i] == arguments[i - |before.argumentTypeIds|];
          assert ids[i] in arguments;
        }
      }
    }
  }

  ghost predicate AllRefsOk(types: TypeTable, functions: FunctionTable) {
    forall id :: id in functions ==> FunctionRefsOk(types, functions[id])
  }

  lemma RefsOkAfterUpdate(types: TypeTable, functions: FunctionTable, id: u32, f: FunctionSymbol)
    requires AllRefsOk(types, functions) && FunctionRefsOk(types, f)
    ensures AllRefsOk(types, functions[id := f])
  {}

  lemma {:induction false} FunctionRefsFromOk(
      g: Graph, functions: FunctionTable, fs: seq<DiaFunction>, types: TypeTable)
    requires AllRefsOk(types, functions)
    requires FunctionRoots(g, functions, fs) <= types.Keys
    ensures AllRefsOk(types, FunctionsFrom(g, functions, fs))
  {
    if fs != [] {
      FunctionRefsFromOk(g, functions, fs[..|fs| - 1], types);
      var before := FunctionsFrom(g, functions, fs[..|fs| - 1]);
      var f := fs[|fs| - 1];
      FilledRefsOk(g, Entry(before, f.id), f, types);
      RefsOkAfterUpdate(types, before, f.id, Filled(g, Entry(before, f.id), f));
    }
  }

  // ---------------------------------------------------------------- said of the records' own fields

  /** What a getter gave, or what was there before if it failed. */
  predicate GivenOr<T(==)>(given: Option<T>, before: T, x: T) {
    && (given.Some? ==> x == given.value)
    && (given.None? ==> x == before)
  }

  /** The leading n arguments are base types without a type, and no more of them. */
  predicate LeadingStubs(g: Graph, arguments: seq<u32>, n: nat) {
    && n <= |arguments|
    && (forall i :: 0 <= i < n ==> arguments[i] in g && g[arguments[i]].tag.TagBaseType? && g[arguments[i]].noType)
    && (n < |arguments| && arguments[n] in g ==> !(g[arguments[n]].tag.TagBaseType? && g[arguments[n]].noType))
  }

  /** The this pointer if there is one, and then the arguments behind the leading stubs. */
  ghost predicate ArgumentsShown(g: Graph, t: FunctionType, ids: seq<u32>) {
    exists n: nat ::
      && LeadingStubs(g, t.arguments, n)
      && (t.thisType.Some? ==> ids == [t.thisType.value] + t.arguments[n..])
      && (t.thisType.None? ==> ids == t.arguments[n..])
  }

  /** r is what reading f into `before` leaves. */
  ghost predicate FunctionShown(g: Graph, before: FunctionSymbol, f: DiaFunction, r: FunctionSymbol) {
    && r.id == f.id && r.name == f.name
    && match f.ofType
       case None =>
         && (r.returnTypeId, r.argumentCount, r.argumentTypeIds)
            == (before.returnTypeId, before.argumentCount, before.argumentTypeIds)
         && (r.callingConvention, r.virtualAddress) == (before.callingConvention, before.virtualAddress)
       case Some(t) =>
         && GivenOr(t.returnType, before.returnTypeId, r.returnTypeId)
         && GivenOr(t.argumentCount, before.argumentCount, r.argumentCount)
         && GivenOr(t.callingConvention, before.callingConvention, r.callingConvention)
         && GivenOr(f.virtualAddress, before.virtualAddress, r.virtualAddress)
         && if r.argumentCount == 0 then r.argumentTypeIds == before.argumentTypeIds
            else exists added :: ArgumentsShown(g, t, added) && r.argumentTypeIds == before.argumentTypeIds + added
  }

  lemma {:induction false} SkippedAreLeading(g: Graph, arguments: seq<u32>) returns (n: nat)
    ensures LeadingStubs(g, arguments, n) && SkipStubs(g, arguments) == arguments[n..]
    decreases |arguments|
  {
    n := 0;
    if arguments != [] && IsStub(g, arguments[0]) {
      n := SkippedAreLeading(g, arguments[1..]);
      assert forall i :: 1 <= i < |arguments| ==> arguments[i] == arguments[1..][i - 1];
      assert arguments[1..][n..] == arguments[n + 1..];
      n := n + 1;
    }
  }

  /** What is read of a function. */
  lemma {:induction false} FilledIsShown(g: Graph, before: FunctionSymbol, f: DiaFunction)
    ensures FunctionShown(g, before, f, Filled(g, before, f))
  {
    if f.ofType.Some? {
      var t := f.ofType.value;
      var n := SkippedAreLeading(g, t.arguments);
      assert [] + t.arguments[n..] == t.arguments[n..];
      assert ArgumentsShown(g, t, ArgumentsOf(g, t));
    }
  }

  /** functions holds the record of each of fs, made from it alone, and nothing else. */
  ghost predicate OneEach(g: Graph, functions: FunctionTable, fs: seq<DiaFunction>) {
    && (forall f :: f in fs ==> f.id in functions && functions[f.id] == Filled(g, EMPTY_FUNCTION, f))
    && (forall f :: f in fs ==> FunctionShown(g, EMPTY_FUNCTION, f, functions[f.id]))
    && (forall id :: id in functions ==> exists f :: f in fs && f.id == id)
  }

  lemma OneEachMore(g: Graph, functions: FunctionTable, fs: seq<DiaFunction>, f: DiaFunction)
    requires OneEach(g, functions, fs)
    requires forall other :: other in fs ==> other.id != f.id
    ensures f.id !in functions
    ensures OneEach(g, functions[f.id := Filled(g, EMPTY_FUNCTION, f)], fs + [f])
  {
    var after := functions[f.id := Filled(g, EMPTY_FUNCTION, f)];
    FilledIsShown(g, EMPTY_FUNCTION, f);
    assert forall other :: other in fs ==> after[other.id] == functions[other.id];
    forall id | id in after
      ensures exists other :: other in fs + [f] && other.id == id
    {
      if id == f.id {
        assert f in fs + [f];
      } else {
        var other :| other in fs && other.id == id;
        assert other in fs + [f];
      }
    }
  }

  ghost predicate IdsDiffer(fs: seq<DiaFunction>) {
    forall i, j :: 0 <= i < j < |fs| ==> fs[i].id != fs[j].id
  }

  lemma LastIsNew(fs: seq<DiaFunction>)
    requires fs != [] && IdsDiffer(fs)
    ensures var shorter, f := fs[..|fs| - 1], fs[|fs| - 1];
            && IdsDiffer(shorter)
            && (forall other :: other in shorter ==> other.id != f.id)
            && fs == shorter + [f]
  {
    var shorter := fs[..|fs| - 1];
    forall other | other in shorter
      ensures other.id != fs[|fs| - 1].id
    {
      var i :| 0 <= i < |shorter| && shorter[i] == other;
      assert fs[i].id != fs[|fs| - 1].id;
    }
  }

  /** When no function comes twice, each gets the record made from it alone. */
  lemma {:induction false} FunctionsAreSeparate(g: Graph, fs: seq<DiaFunction>)
    requires IdsDiffer(fs)
    ensures OneEach(g, FunctionsFrom(g, map[], fs), fs)
  {
    if fs != [] {
      var shorter, f := fs[..|fs| - 1], fs[|fs| - 1];
      FunctionsAreSeparate(g, shorter);
      LastIsNew(fs);
      OneEachMore(g, FunctionsFrom(g, map[], shorter), shorter, f);
    }
  }
}

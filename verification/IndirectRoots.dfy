/** Which table elements of a WebAssembly module stay roots once its indirect calls are known. */
module IndirectRoots {
  import opened WasmFunctions
  import opened Wrappers

  /** What parsing gathered: each function's calls, the referenced functions, their types and the types' shapes. */
  datatype ParseState = ParseState(calls: seq<seq<PendingCall>>, elements: set<nat>,
                                   functionTypes: map<nat, nat>, typeShapes: seq<Option<string>>)
  {
    /** `shape_of`: the signature only an identical signature can match, if the type has one. */
    function ShapeOf(typeIndex: nat): Option<string> {
      if typeIndex < |typeShapes| then typeShapes[typeIndex] else None
    }

    ghost predicate Makes(call: PendingCall) {
      exists i :: 0 <= i < |calls| && call in calls[i]
    }

    /** What is known of the shape of function `e`. */
    function ShapeOfFunction(e: nat): Option<string> {
      if e in functionTypes then ShapeOf(functionTypes[e]) else None
    }

    /** Nothing known about `call` and function `e` rules out that it reaches `e`. */
    predicate Admits(call: PendingCall, e: nat) {
      match call
      case Direct(_) => false
      case Untyped => true
      case Through(typeIndex) =>
        ShapeOf(typeIndex).None? || ShapeOfFunction(e).None? || ShapeOf(typeIndex) == ShapeOfFunction(e)
    }

    /** Some recorded transfer may reach function `e`. */
    ghost predicate MayReach(e: nat) {
      exists call :: Makes(call) && Admits(call, e)
    }

    ghost predicate AllTyped() {
      forall e :: e in elements ==> e in functionTypes
    }

    /** Every indirect call and every typed element has a comparable shape. */
    ghost predicate Comparable() {
      && !Makes(Untyped)
      && (forall t :: Makes(Through(t)) ==> ShapeOf(t).Some?)
      && (forall e :: e in elements && e in functionTypes ==> ShapeOfFunction(e).Some?)
    }

    /** Some indirect call has the shape of function `e`. */
    ghost predicate Matched(e: nat) {
      && ShapeOfFunction(e).Some?
      && exists t :: Makes(Through(t)) && ShapeOf(t) == ShapeOfFunction(e)
    }

    /** When the elements are narrowed: everything is comparable, and some element matches. */
    ghost predicate Narrows() {
      Comparable() && exists e :: e in elements && Matched(e)
    }

    ghost function Roots(): set<nat> {
      if Narrows() then set e | e in elements && Matched(e) else elements
    }
  }

  /** Elements some transfer may reach stay roots, exactly when narrowing never meets an element without a type. */
  lemma RootsAreConservativeExactly(state: ParseState)
    ensures (forall e :: e in state.elements && state.MayReach(e) ==> e in state.Roots())
        <==> (state.Narrows() ==> state.AllTyped())
  {
    if state.Narrows() && !state.AllTyped() {
      var matched :| matched in state.elements && state.Matched(matched);
      var t :| state.Makes(Through(t)) && state.ShapeOf(t) == state.ShapeOfFunction(matched);
      var untyped :| untyped in state.elements && untyped !in state.functionTypes;
      assert state.Admits(Through(t), untyped);
      assert state.MayReach(untyped) && untyped !in state.Roots();
    }
    if state.Narrows() && state.AllTyped() {
      forall e | e in state.elements && state.MayReach(e)
        ensures e in state.Roots()
      {
      }
    }
  }

  /** With every element typed, narrowing drops exactly the elements no recorded transfer may reach. */
  lemma NarrowedRootsAreTheReachable(state: ParseState, e: nat)
    requires state.AllTyped() && e in state.elements
    ensures state.Roots() <= state.elements
    ensures state.MayReach(e) ==> e in state.Roots()
    ensures e !in state.Roots() ==> state.Narrows() && !state.MayReach(e)
    ensures state.Narrows() && e in state.Roots() ==> state.MayReach(e)
  {
    RootsAreConservativeExactly(state);
    if state.Matched(e) {
      var t :| state.Makes(Through(t)) && state.ShapeOf(t) == state.ShapeOfFunction(e);
      assert state.Admits(Through(t), e);
    }
  }

  /** Some recorded call dispatches through type `t`. */
  ghost predicate CallsThrough(state: ParseState, t: nat) {
    exists i :: 0 <= i < |state.calls| && Through(t) in state.calls[i]
  }

  /** Type `t` has a shape. */
  ghost predicate HasShape(state: ParseState, t: nat, shape: string) {
    t < |state.typeShapes| && state.typeShapes[t] == Some(shape)
  }

  /** Element `e` has a shape that some recorded call dispatches through. */
  ghost predicate IsCalled(state: ParseState, e: nat) {
    exists t, shape :: CallsThrough(state, t) && HasShape(state, t, shape)
                       && e in state.functionTypes && HasShape(state, state.functionTypes[e], shape)
  }

  /** Nothing stands in the way of narrowing: no transfer without a type, no type without a shape. */
  ghost predicate Tellable(state: ParseState) {
    && (forall i :: 0 <= i < |state.calls| ==> Untyped !in state.calls[i])
    && (forall t :: CallsThrough(state, t) ==> exists shape :: HasShape(state, t, shape))
    && forall e :: e in state.elements && e in state.functionTypes ==>
         exists shape :: HasShape(state, state.functionTypes[e], shape)
  }

  lemma ShapesAre(state: ParseState, e: nat)
    ensures forall t :: state.Makes(Through(t)) <==> CallsThrough(state, t)
    ensures forall t, shape :: state.ShapeOf(t) == Some(shape) <==> HasShape(state, t, shape)
    ensures state.Matched(e) <==> IsCalled(state, e)
  {
    if state.Matched(e) {
      var t :| state.Makes(Through(t)) && state.ShapeOf(t) == state.ShapeOfFunction(e);
      var shape := state.ShapeOf(t).value;
      assert CallsThrough(state, t) && HasShape(state, t, shape);
      assert HasShape(state, state.functionTypes[e], shape);
    }
    if IsCalled(state, e) {
      var t, shape :| CallsThrough(state, t) && HasShape(state, t, shape)
                      && e in state.functionTypes && HasShape(state, state.functionTypes[e], shape);
      assert state.Makes(Through(t)) && state.ShapeOf(t) == state.ShapeOfFunction(e);
    }
  }

  lemma TellableIsComparable(state: ParseState)
    ensures Tellable(state) <==> state.Comparable()
  {
    ShapesAre(state, 0);
    forall t
      ensures state.ShapeOf(t).Some? <==> exists shape :: HasShape(state, t, shape)
    {
      if state.ShapeOf(t).Some? {
        assert HasShape(state, t, state.ShapeOf(t).value);
      }
    }
  }

  /**
  An element is dropped exactly when nothing stands in the way of narrowing, some
  element is called by its shape, and this one is not.
  */
  lemma DroppedExactly(state: ParseState, e: nat)
    requires e in state.elements
    ensures state.Roots() <= state.elements
    ensures e !in state.Roots()
        <==> && Tellable(state) && (exists other :: other in state.elements && IsCalled(state, other))
             && !IsCalled(state, e)
  {
    TellableIsComparable(state);
    forall other: nat
      ensures state.Matched(other) <==> IsCalled(state, other)
    {
      ShapesAre(state, other);
    }
  }

  /** Types of function indices: imports first, then the module's own functions. */
  function TypesOf(imported: seq<nat>, defined: seq<nat>): (types: map<nat, nat>)
    ensures forall i: nat :: i in types <==> i < |imported + defined|
    ensures forall i: nat :: i in types ==> types[i] == (imported + defined)[i]
  {
    map i | 0 <= i < |imported| + |defined| :: if i < |imported| then imported[i] else defined[i - |imported|]
  }

  /** Validation comes before parsing: every function index has a type, so narrowing drops nothing reachable. */
  lemma ValidatedModulesAreConservative(imported: seq<nat>, defined: seq<nat>, state: ParseState, e: nat)
    requires state.functionTypes == TypesOf(imported, defined)
    requires forall index :: index in state.elements ==> index < |imported| + |defined|
    requires e in state.elements && state.MayReach(e)
    ensures e in state.Roots()
  {
    NarrowedRootsAreTheReachable(state, e);
  }

  const ONE_UNTYPED := ParseState([[Through(0)]], {1, 2}, map[1 := 0], [Some("()")])

  /**
  An element without a type is dropped beside one that matches, although nothing
  says it is unreachable. `parse` fills the state only after the module passed
  validation, so this input reaches the narrowing function alone.
  */
  lemma UntypedElementIsDropped()
    ensures 2 in ONE_UNTYPED.elements && ONE_UNTYPED.MayReach(2) && 2 !in ONE_UNTYPED.Roots()
  {
    assert ONE_UNTYPED.calls[0] == [Through(0)];
    assert ONE_UNTYPED.Makes(Through(0)) && ONE_UNTYPED.Admits(Through(0), 2);
    assert ONE_UNTYPED.Matched(1);
  }

  /** What the first calls tell: the types called through, unless one call has none. */
  ghost predicate Gathers(calls: seq<seq<PendingCall>>, i: nat, j: nat, types: set<nat>)
    requires i <= |calls| && (i < |calls| ==> j <= |calls[i]|)
  {
    && (forall t :: t in types <==> SeenBefore(calls, i, j, Through(t)))
    && !SeenBefore(calls, i, j, Untyped)
  }

  ghost predicate SeenBefore(calls: seq<seq<PendingCall>>, i: nat, j: nat, call: PendingCall)
    requires i <= |calls| && (i < |calls| ==> j <= |calls[i]|)
  {
    || (exists a :: 0 <= a < i && call in calls[a])
    || (i < |calls| && call in calls[i][..j])
  }

  /** The types of the calls that dispatch through one; none if a transfer has no type. */
  method CallTypes(state: ParseState) returns (types: Option<set<nat>>)
    ensures types.None? <==> state.Makes(Untyped)
    ensures types.Some? ==> forall t :: t in types.value <==> state.Makes(Through(t))
  {
    var found: set<nat> := {};
    for i := 0 to |state.calls|
      invariant Gathers(state.calls, i, 0, found)
    {
      var calls := state.calls[i];
      for j := 0 to |calls|
        invariant Gathers(state.calls, i, j, found)
      {
        assert calls[..j + 1] == calls[..j] + [calls[j]];
        match calls[j] {
          case Through(typeIndex) => found := found + {typeIndex};
          case Untyped =>
            assert state.Makes(Untyped);
            return None;
          case Direct(_) =>
        }
      }
      assert calls[..|calls|] == calls;
    }
    types := Some(found);
  }

  /** The shapes of the given types; none if one has no comparable shape. */
  method ShapesOf(state: ParseState, types: set<nat>) returns (shapes: Option<set<string>>)
    ensures shapes.None? <==> exists t :: t in types && state.ShapeOf(t).None?
    ensures shapes.Some? ==>
              forall shape :: shape in shapes.value <==> exists t :: t in types && state.ShapeOf(t) == Some(shape)
  {
    var rest, found: set<string> := types, {};
    while rest != {}
      invariant rest <= types
      invariant forall t :: t in types - rest ==> state.ShapeOf(t).Some?
      invariant forall shape :: shape in found <==> exists t :: t in types - rest && state.ShapeOf(t) == Some(shape)
    {
      var t :| t in rest;
      var shape := state.ShapeOf(t);
      if shape.None? {
        return None;
      }
      found, rest := found + {shape.value}, rest - {t};
    }
    shapes := Some(found);
  }

  /** The elements whose shape is called; none if a typed element has no comparable shape. */
  method Narrow(state: ParseState, shapes: set<string>) returns (narrowed: Option<set<nat>>)
    ensures narrowed.None? <==>
              exists e :: e in state.elements && e in state.functionTypes && state.ShapeOfFunction(e).None?
    ensures narrowed.Some? ==>
              forall e :: e in narrowed.value <==>
                e in state.elements && state.ShapeOfFunction(e).Some? && state.ShapeOfFunction(e).value in shapes
  {
    var rest, found: set<nat> := state.elements, {};
    while rest != {}
      invariant rest <= state.elements
      invariant forall e :: e in state.elements - rest && e in state.functionTypes ==> state.ShapeOfFunction(e).Some?
      invariant forall e :: e in found <==>
                  && e in state.elements - rest
                  && state.ShapeOfFunction(e).Some? && state.ShapeOfFunction(e).value in shapes
    {
      var e :| e in rest;
      rest := rest - {e};
      if e in state.functionTypes {
        var shape := state.ShapeOf(state.functionTypes[e]);
        if shape.None? {
          return None;
        }
        if shape.value in shapes {
          found := found + {e};
        }
      }
    }
    narrowed := Some(found);
  }

  /** `indirect_root_indices`. */
  method IndirectRootIndices(state: ParseState) returns (roots: set<nat>)
    ensures roots == state.Roots()
    ensures roots <= state.elements
    ensures forall e :: e in state.elements ==>
              (e !in roots <==>
                 && Tellable(state) && (exists other :: other in state.elements && IsCalled(state, other))
                 && !IsCalled(state, e))
  {
    forall e | e in state.elements
      ensures state.Roots() <= state.elements
      ensures e !in state.Roots()
          <==> && Tellable(state) && (exists other :: other in state.elements && IsCalled(state, other))
               && !IsCalled(state, e)
    {
      DroppedExactly(state, e);
    }
    var types := CallTypes(state);
    if types.None? || types.value == {} {
      return state.elements;
    }
    var shapes := ShapesOf(state, types.value);
    if shapes.None? {
      return state.elements;
    }
    var narrowed := Narrow(state, shapes.value);
    if narrowed.None? || narrowed.value == {} {
      return state.elements;
    }
    roots := narrowed.value;
  }
}

/**
 Plugin-class discovery (`findSubclassOf` in pkg/collector/py/utils.go).

 The Python objects are foreign, so each entry of `dir(module)` is reduced to
 what the scan asks of it: whether it is a type, and, for a type, what the two
 C-API predicates `PyObject_IsSubclass` and `PyObject_RichCompareBool(_, _, Py_EQ)`
 returned for it against `base`. Those predicates return 1, 0, or -1 on error.
 The found class is reported by its position in the `dir` list.
 */
module Subclass {
  import opened Results

  /** The three answers of a C-API predicate: 1, 0 or -1 (an exception was raised). */
  datatype CBool = CTrue | CFalse | CError

  /** One attribute named by `dir(module)`, as the scan sees it. */
  datatype Symbol =
    | NonType
    | Type(isSubclass: CBool, compareEq: CBool)

  /** A possibly-nil object reference handed to the resolver. */
  datatype ObjRef = Nil | Obj(isType: bool, isModule: bool)

  /** The four error returns of `findSubclassOf`. */
  datatype FindError =
    | NilArgument        // "both base class and module must be not nil"
    | BaseNotClass       // "<base> is not of Class type"
    | ModuleNotModule    // "<module> is not a Module object"
    | NoSubclass         // "cannot find a subclass of <base> ..."

  /** Both arguments pass the three validation checks. */
  predicate ArgsValid(base: ObjRef, mod: ObjRef) {
    base.Obj? && mod.Obj? && base.isType && mod.isModule
  }

  /**
   An entry the scan accepts: a type for which `IsSubclass` answered exactly 1
   and the equality comparison did not answer 1 (so 0 and -1 both let it through).
   */
  predicate Qualifies(s: Symbol) {
    s.Type? && s.isSubclass == CTrue && s.compareEq != CTrue
  }

  /** `i` is the first qualifying position of `dir`. */
  predicate IsFirstSubclass(dir: seq<Symbol>, i: nat) {
    && i < |dir|
    && Qualifies(dir[i])
    && forall j :: 0 <= j < i ==> !Qualifies(dir[j])
  }

  /** No entry of `dir` qualifies. */
  predicate NoneQualifies(dir: seq<Symbol>) {
    forall j :: 0 <= j < |dir| ==> !Qualifies(dir[j])
  }

  /** The argument checks, in the order `findSubclassOf` checks them. */
  function CheckArgs(base: ObjRef, mod: ObjRef): (r: Option<FindError>)
    ensures r.None? <==> ArgsValid(base, mod)
    ensures r != Some(NoSubclass)
  {
    if base.Nil? || mod.Nil? then Some(NilArgument)
    else if !base.isType then Some(BaseNotClass)
    else if !mod.isModule then Some(ModuleNotModule)
    else None
  }

  /** The loop over `dir`, starting at position `from`: the first qualifying index, if any. */
  function ScanFrom(dir: seq<Symbol>, from: nat): (r: Option<nat>)
    requires from <= |dir|
    ensures r.Some? ==> from <= r.value < |dir| && Qualifies(dir[r.value])
    ensures r.Some? ==> forall j :: from <= j < r.value ==> !Qualifies(dir[j])
    ensures r.None? <==> forall j :: from <= j < |dir| ==> !Qualifies(dir[j])
    decreases |dir| - from
  {
    if from == |dir| then None
    else if Qualifies(dir[from]) then Some(from)
    else ScanFrom(dir, from + 1)
  }

  /** `findSubclassOf(base, mod)`: validate, then return the first strict subclass in dir order. */
  function FindSubclassOf(base: ObjRef, mod: ObjRef, dir: seq<Symbol>): (r: Result<nat, FindError>)
    ensures base.Nil? || mod.Nil? ==> r == Err(NilArgument)
    ensures base.Obj? && mod.Obj? && !base.isType ==> r == Err(BaseNotClass)
    ensures base.Obj? && mod.Obj? && base.isType && !mod.isModule ==> r == Err(ModuleNotModule)
    ensures r.Ok? ==> ArgsValid(base, mod) && IsFirstSubclass(dir, r.value)
    ensures r.Ok? ==> dir[r.value].Type? && dir[r.value].isSubclass == CTrue && dir[r.value].compareEq != CTrue
    ensures r == Err(NoSubclass) <==> ArgsValid(base, mod) && NoneQualifies(dir)
    ensures ArgsValid(base, mod) ==> r.Ok? || r == Err(NoSubclass)
  {
    match CheckArgs(base, mod)
    case Some(e) => Err(e)
    case None =>
      match ScanFrom(dir, 0)
      case Some(i) => Ok(i)
      case None => Err(NoSubclass)
  }

  /** Shifts a found index by one when an entry is inserted at or before it. */
  function ShiftFrom(r: Result<nat, FindError>, k: nat): Result<nat, FindError> {
    match r
    case Ok(i) => if i < k then Ok(i) else Ok(i + 1)
    case Err(e) => Err(e)
  }

  /** Validation happens before the scan: an invalid argument yields the same error whatever `dir` holds. */
  lemma ValidationIgnoresDir(base: ObjRef, mod: ObjRef, dir1: seq<Symbol>, dir2: seq<Symbol>)
    requires !ArgsValid(base, mod)
    ensures FindSubclassOf(base, mod, dir1) == FindSubclassOf(base, mod, dir2)
    ensures FindSubclassOf(base, mod, dir1).Err?
    ensures FindSubclassOf(base, mod, dir1) != Err(NoSubclass)
  {
  }

  /** Any position that is the first qualifying one is what the resolver returns. */
  lemma FirstQualifyingIsReturned(base: ObjRef, mod: ObjRef, dir: seq<Symbol>, i: nat)
    requires ArgsValid(base, mod)
    requires IsFirstSubclass(dir, i)
    ensures FindSubclassOf(base, mod, dir) == Ok(i)
  {
  }

  /** Non-type symbols never stop the scan: inserting one anywhere only shifts the found index. */
  lemma {:induction false} NonTypeIsSkipped(base: ObjRef, mod: ObjRef, dir: seq<Symbol>, k: nat)
    requires k <= |dir|
    ensures FindSubclassOf(base, mod, dir[..k] + [NonType] + dir[k..])
         == ShiftFrom(FindSubclassOf(base, mod, dir), k)
  {
    var dir' := dir[..k] + [NonType] + dir[k..];
    assert forall j :: 0 <= j < k ==> dir'[j] == dir[j];
    assert dir'[k] == NonType;
    assert forall j :: k < j < |dir'| ==> dir'[j] == dir[j - 1];
    var r := FindSubclassOf(base, mod, dir);
    if ArgsValid(base, mod) {
      match r
      case Ok(i) =>
        var i' := if i < k then i else i + 1;
        assert IsFirstSubclass(dir', i') by {
          forall j | 0 <= j < i'
            ensures !Qualifies(dir'[j])
          {
            if j < k {
              assert dir'[j] == dir[j];
            } else if j > k {
              assert dir'[j] == dir[j - 1];
            }
          }
        }
        FirstQualifyingIsReturned(base, mod, dir', i');
      case Err(_) =>
        assert NoneQualifies(dir);
        assert NoneQualifies(dir') by {
          forall j | 0 <= j < |dir'|
            ensures !Qualifies(dir'[j])
          {
            if j < k {
              assert dir'[j] == dir[j];
            } else if j > k {
              assert dir'[j] == dir[j - 1];
            }
          }
        }
    }
  }

  /**
   The scan is compositional over a split of the `dir` list: a hit in the front
   part wins, otherwise the answer is that of the back part, offset by the
   front's length.
   */
  lemma {:induction false} ScanConcat(base: ObjRef, mod: ObjRef, front: seq<Symbol>, back: seq<Symbol>)
    ensures FindSubclassOf(base, mod, front + back)
         == match FindSubclassOf(base, mod, front)
            case Ok(i) => Ok(i)
            case Err(NoSubclass) =>
              (match FindSubclassOf(base, mod, back)
               case Ok(j) => Ok(|front| + j)
               case Err(e) => Err(e))
            case Err(e) => Err(e)
  {
    var all := front + back;
    assert forall j :: 0 <= j < |front| ==> all[j] == front[j];
    assert forall j :: 0 <= j < |back| ==> all[|front| + j] == back[j];
    if ArgsValid(base, mod) {
      match FindSubclassOf(base, mod, front)
      case Ok(i) =>
        FirstQualifyingIsReturned(base, mod, all, i);
      case Err(_) =>
        match FindSubclassOf(base, mod, back)
        case Ok(j) =>
          assert IsFirstSubclass(all, |front| + j) by {
            forall m | 0 <= m < |front| + j
              ensures !Qualifies(all[m])
            {
              if m >= |front| {
                assert all[m] == back[m - |front|];
              }
            }
          }
          FirstQualifyingIsReturned(base, mod, all, |front| + j);
        case Err(_) =>
          assert NoneQualifies(all) by {
            forall m | 0 <= m < |all|
              ensures !Qualifies(all[m])
            {
              if m >= |front| {
                assert all[m] == back[m - |front|];
              }
            }
          }
    }
  }

  /**
   `base` itself, seen under any number of names, is never returned: its
   comparison with itself answers 1 (the identity shortcut of
   `RichCompareBool`), whatever its subclass check answers.
   */
  lemma BaseNeverReturned(base: ObjRef, mod: ObjRef, dir: seq<Symbol>)
    requires forall j :: 0 <= j < |dir| ==> (dir[j].Type? && dir[j].compareEq == CTrue) || dir[j].NonType?
    ensures FindSubclassOf(base, mod, dir).Err?
  {
  }
}

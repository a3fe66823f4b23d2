// The Javascript helper: a log of the script modules requested for the
// response (dependencies first), the registry of factory methods bound to CSS
// selectors, and the `$(document).ready` code generated from that registry.

module Javascript {
  import opened Wrappers
  import Text
  import PhpArray

  const JqueryVersion: string := "1.6.2"
  const JqueryUiVersion: string := "1.8.16.custom"

  /** `'jquery-' . JQUERY_VERSION`. */
  const JqueryModule: string := "jquery-" + JqueryVersion
  /** `'jquery-ui-' . JQUERY_UI_VERSION`. */
  const JqueryUiModule: string := "jquery-ui-" + JqueryUiVersion

  /** `$_dependencies`: module name to the modules it needs. */
  type Dependencies = map<string, seq<string>>

  /**
   * Every dependency has a smaller rank than the module that needs it, so the
   * table has no cycle and `load` terminates.
   */
  ghost predicate Acyclic(deps: Dependencies, rank: string -> nat)
  {
    forall m, i :: m in deps && 0 <= i < |deps[m]| ==> rank(deps[m][i]) < rank(m)
  }

  /** The modules `load(m)` adds, in order: those of each dependency in turn, then `m`. */
  ghost function LoadOrder(deps: Dependencies, rank: string -> nat, m: string): (r: seq<string>)
    requires Acyclic(deps, rank)
    ensures |r| >= 1 && r[|r| - 1] == m
    decreases rank(m), 1
  {
    (if m in deps then LoadEach(deps, rank, deps[m], rank(m)) else []) + [m]
  }

  /** The modules added by loading each of `ms` in turn. */
  ghost function LoadEach(deps: Dependencies, rank: string -> nat, ms: seq<string>, bound: nat): seq<string>
    requires Acyclic(deps, rank)
    requires forall i :: 0 <= i < |ms| ==> rank(ms[i]) < bound
    decreases bound, 0, |ms|
  {
    if |ms| == 0 then []
    else LoadEach(deps, rank, ms[..|ms| - 1], bound) + LoadOrder(deps, rank, ms[|ms| - 1])
  }

  /** Loading a list of modules adds what loading each of them adds. */
  lemma {:induction false} LoadEachContains(deps: Dependencies, rank: string -> nat, ms: seq<string>, bound: nat, i: nat)
    requires Acyclic(deps, rank)
    requires forall k :: 0 <= k < |ms| ==> rank(ms[k]) < bound
    requires i < |ms|
    ensures forall x :: x in LoadOrder(deps, rank, ms[i]) ==> x in LoadEach(deps, rank, ms, bound)
    decreases |ms|
  {
    var front := ms[..|ms| - 1];
    if i < |ms| - 1 {
      assert front[i] == ms[i];
      LoadEachContains(deps, rank, front, bound, i);
    }
  }

  /**
   * `load(m)` adds every module that a dependency of `m` adds, and all of
   * them before `m` itself: dependencies, and theirs, come first.
   */
  lemma DependenciesFirst(deps: Dependencies, rank: string -> nat, m: string, i: nat)
    requires Acyclic(deps, rank)
    requires m in deps && i < |deps[m]|
    ensures var order := LoadOrder(deps, rank, m);
            forall x :: x in LoadOrder(deps, rank, deps[m][i]) ==> x in order[..|order| - 1]
  {
    LoadEachContains(deps, rank, deps[m], rank(m), i);
    var order := LoadOrder(deps, rank, m);
    assert order[..|order| - 1] == LoadEach(deps, rank, deps[m], rank(m));
  }

  /** A module without dependencies (the table of the class is empty) is added on its own. */
  lemma NoDependenciesLoadAlone(deps: Dependencies, rank: string -> nat, m: string)
    requires Acyclic(deps, rank) && m !in deps
    ensures LoadOrder(deps, rank, m) == [m]
  {
  }

  /** What `loadJquery(withUi)` adds: jQuery, then jQuery UI when asked for. */
  ghost function JqueryOrder(deps: Dependencies, rank: string -> nat, withUi: bool): seq<string>
    requires Acyclic(deps, rank)
  {
    LoadOrder(deps, rank, JqueryModule) + (if withUi then LoadOrder(deps, rank, JqueryUiModule) else [])
  }

  /** With the empty dependency table, `loadJquery` adds exactly the jQuery module names. */
  lemma JqueryModules(rank: string -> nat, withUi: bool)
    ensures JqueryOrder(map[], rank, withUi) ==
              if withUi then ["jquery-1.6.2", "jquery-ui-1.8.16.custom"] else ["jquery-1.6.2"]
  {
    assert JqueryModule == "jquery-1.6.2";
    assert JqueryUiModule == "jquery-ui-1.8.16.custom";
    NoDependenciesLoadAlone(map[], rank, JqueryModule);
    NoDependenciesLoadAlone(map[], rank, JqueryUiModule);
  }

  // ---------------------------------------------------------------------------
  // The selector registry

  /**
   * `$_factoryMethodToSelectorMap`: factory methods in first-bind order, each
   * with its selectors (array keys, `true` values) in first-bind order.
   */
  type Registry = PhpArray.Array<PhpArray.Array<bool>>

  /** A null selector is stored under the key "" (PHP turns a null array key into ""). */
  function SelectorKey(selector: Option<string>): (k: string)
    ensures selector.Some? ==> k == selector.value
    ensures selector.None? ==> k == ""
  {
    selector.GetOr("")
  }

  /** The selectors bound to `m`, empty when `m` was never bound. */
  function SelectorsOf(reg: Registry, m: string): PhpArray.Array<bool>
  {
    match PhpArray.Lookup(reg, m)
    case None => []
    case Some(sels) => sels
  }

  /** The registry after `bind(m, selector)`: the method's entry is created if missing and gains the key. */
  function BindEntry(reg: Registry, m: string, key: string): Registry
  {
    var created := if PhpArray.HasKey(reg, m) then reg else PhpArray.Assign(reg, m, []);
    PhpArray.Assign(created, m, PhpArray.Assign(SelectorsOf(created, m), key, true))
  }

  /**
   * Binding adds the key to the method's selectors and nothing else: other
   * methods keep their selectors, the method's other selectors stay.
   */
  lemma BindEntryEffect(reg: Registry, m: string, key: string, m': string, key': string)
    ensures PhpArray.HasKey(SelectorsOf(BindEntry(reg, m, key), m'), key') <==>
              PhpArray.HasKey(SelectorsOf(reg, m'), key') || (m' == m && key' == key)
    ensures PhpArray.HasKey(BindEntry(reg, m, key), m') <==> PhpArray.HasKey(reg, m') || m' == m
  {
    var created := if PhpArray.HasKey(reg, m) then reg else PhpArray.Assign(reg, m, []);
    PhpArray.AssignLookup(reg, m, [], m');
    PhpArray.AssignKeys(reg, m, []);
    PhpArray.AssignLookup(created, m, PhpArray.Assign(SelectorsOf(created, m), key, true), m');
    PhpArray.AssignKeys(created, m, PhpArray.Assign(SelectorsOf(created, m), key, true));
    PhpArray.AssignKeys(SelectorsOf(created, m), key, true);
  }

  /** Binding the same pair again leaves the registry unchanged. */
  lemma BindEntryIdempotent(reg: Registry, m: string, key: string)
    ensures BindEntry(BindEntry(reg, m, key), m, key) == BindEntry(reg, m, key)
  {
    var once := BindEntry(reg, m, key);
    BindEntryEffect(reg, m, key, m, key);
    var sels := SelectorsOf(once, m);
    BindEntryHas(reg, m, key);
    AssignExistingSame(sels, key, true);
    AssignExistingSame(once, m, sels);
  }

  /** After binding, the method's selectors hold the key with value true. */
  lemma BindEntryHas(reg: Registry, m: string, key: string)
    ensures PhpArray.Lookup(SelectorsOf(BindEntry(reg, m, key), m), key) == Some(true)
  {
    var created := if PhpArray.HasKey(reg, m) then reg else PhpArray.Assign(reg, m, []);
    var sels := PhpArray.Assign(SelectorsOf(created, m), key, true);
    PhpArray.AssignLookup(created, m, sels, m);
    PhpArray.AssignLookup(SelectorsOf(created, m), key, true, key);
  }

  /** Assigning a key the value it already has changes nothing. */
  lemma {:induction false} AssignExistingSame<V>(arr: PhpArray.Array<V>, k: string, v: V)
    requires PhpArray.Lookup(arr, k) == Some(v)
    ensures PhpArray.Assign(arr, k, v) == arr
    decreases |arr|
  {
    if |arr| > 0 && arr[0].0 != k {
      AssignExistingSame(arr[1..], k, v);
    }
  }

  // ---------------------------------------------------------------------------
  // The generated code

  const ReadyOpen: string := "$(document).ready(function() {"
  const ReadyClose: string := "});"

  /** The statement for one (method, selector) pair. */
  function Statement(m: string, selector: string): string
  {
    if |selector| > 0 then "$('" + selector + "').each(function() { " + m + "(this); });"
    else m + "();"
  }

  /** The statements for the given selectors of `m`, in order. */
  function SelectorsCode(m: string, sels: PhpArray.Array<bool>): string
    decreases |sels|
  {
    if |sels| == 0 then ""
    else SelectorsCode(m, sels[..|sels| - 1]) + Statement(m, sels[|sels| - 1].0)
  }

  /** The statements for every method, in registry order. */
  function MethodsCode(reg: Registry): string
    decreases |reg|
  {
    if |reg| == 0 then ""
    else MethodsCode(reg[..|reg| - 1]) + SelectorsCode(reg[|reg| - 1].0, reg[|reg| - 1].1)
  }

  /** `getBindCode`'s result: empty with no bound method, else the statements inside `$(document).ready`. */
  function BindCode(reg: Registry): string
  {
    if |reg| > 0 then ReadyOpen + MethodsCode(reg) + ReadyClose else ""
  }

  /** Every (method, selector) pair of the registry, in the order the loops visit them. */
  function Pairs(reg: Registry): (r: seq<(string, string)>)
    decreases |reg|
  {
    if |reg| == 0 then [] else Pairs(reg[..|reg| - 1]) + MethodPairs(reg[|reg| - 1].0, reg[|reg| - 1].1)
  }

  /** The pairs of one method with each of its selectors. */
  function MethodPairs(m: string, sels: PhpArray.Array<bool>): (r: seq<(string, string)>)
    ensures |r| == |sels| && forall j :: 0 <= j < |sels| ==> r[j] == (m, sels[j].0)
  {
    seq(|sels|, j requires 0 <= j < |sels| => (m, sels[j].0))
  }

  /** The statements of a list of pairs, in order. */
  function PairsCode(pairs: seq<(string, string)>): string
    decreases |pairs|
  {
    if |pairs| == 0 then "" else PairsCode(pairs[..|pairs| - 1]) + Statement(pairs[|pairs| - 1].0, pairs[|pairs| - 1].1)
  }

  lemma {:induction false} PairsCodeAppend(a: seq<(string, string)>, b: seq<(string, string)>)
    ensures PairsCode(a + b) == PairsCode(a) + PairsCode(b)
    decreases |b|
  {
    if |b| == 0 {
      assert a + b == a;
    } else {
      var front := b[..|b| - 1];
      var last := Statement(b[|b| - 1].0, b[|b| - 1].1);
      assert (a + b)[..|a + b| - 1] == a + front;
      assert (a + b)[|a + b| - 1] == b[|b| - 1];
      assert PairsCode(a + b) == PairsCode(a + front) + last;
      PairsCodeAppend(a, front);
      Text.AppendAssoc(PairsCode(a), PairsCode(front), last);
    }
  }

  lemma {:induction false} SelectorsCodePairs(m: string, sels: PhpArray.Array<bool>)
    ensures SelectorsCode(m, sels) == PairsCode(MethodPairs(m, sels))
    decreases |sels|
  {
    if |sels| > 0 {
      var front := sels[..|sels| - 1];
      SelectorsCodePairs(m, front);
      var ps := MethodPairs(m, sels);
      assert ps[..|ps| - 1] == MethodPairs(m, front);
    }
  }

  /**
   * The code is, inside `$(document).ready`, one statement per bound
   * (method, selector) pair, methods in first-bind order and each method's
   * selectors in first-bind order.
   */
  lemma {:induction false} MethodsCodePairs(reg: Registry)
    ensures MethodsCode(reg) == PairsCode(Pairs(reg))
    decreases |reg|
  {
    if |reg| > 0 {
      var last := reg[|reg| - 1];
      MethodsCodePairs(reg[..|reg| - 1]);
      SelectorsCodePairs(last.0, last.1);
      PairsCodeAppend(Pairs(reg[..|reg| - 1]), MethodPairs(last.0, last.1));
    }
  }

  /** The code is empty exactly when nothing is bound, and is otherwise wrapped in `$(document).ready(function() { ... });`. */
  lemma BindCodeShape(reg: Registry)
    ensures BindCode(reg) == "" <==> |reg| == 0
    ensures |reg| > 0 ==> BindCode(reg) == ReadyOpen + PairsCode(Pairs(reg)) + ReadyClose
  {
    MethodsCodePairs(reg);
    if |reg| > 0 {
      assert |BindCode(reg)| >= |ReadyOpen| > 0;
    }
  }

  /**
   * The registry state: the dependency table (empty in the class, a
   * parameter here), the selector registry, and the modules added to the
   * response so far.
   */
  class Scripts {
    const dependencies: Dependencies
    ghost const rank: string -> nat
    var registry: Registry
    var loaded: seq<string>

    constructor (dependencies: Dependencies, ghost rank: string -> nat)
      requires Acyclic(dependencies, rank)
      ensures this.dependencies == dependencies && this.rank == rank
      ensures registry == [] && loaded == []
    {
      this.dependencies := dependencies;
      this.rank := rank;
      registry := [];
      loaded := [];
    }

    ghost predicate Valid()
      reads this
    {
      Acyclic(dependencies, rank)
    }

    /** `load`: the dependencies' modules (recursively), then `m`. */
    method Load(m: string)
      requires Valid()
      modifies this
      ensures loaded == old(loaded) + LoadOrder(dependencies, rank, m)
      ensures registry == old(registry)
      decreases rank(m)
    {
      if m in dependencies {
        var deps := dependencies[m];
        for i := 0 to |deps|
          invariant loaded == old(loaded) + LoadEach(dependencies, rank, deps[..i], rank(m))
          invariant registry == old(registry)
        {
          assert deps[..i + 1][..i] == deps[..i];
          Load(deps[i]);
        }
        assert deps[..|deps|] == deps;
      }
      loaded := loaded + [m];
    }

    /** `loadJquery`. */
    method LoadJquery(withUi: bool)
      requires Valid()
      modifies this
      ensures loaded == old(loaded) + JqueryOrder(dependencies, rank, withUi)
      ensures registry == old(registry)
    {
      ghost var before := loaded;
      Load(JqueryModule);
      if withUi {
        Load(JqueryUiModule);
        Text.AppendAssoc(before, LoadOrder(dependencies, rank, JqueryModule), LoadOrder(dependencies, rank, JqueryUiModule));
      } else {
        assert loaded == before + LoadOrder(dependencies, rank, JqueryModule) + [];
      }
    }

    /** `bind`: jQuery first, the factory module on its first bind, then record the selector. */
    method Bind(m: string, selector: Option<string>)
      requires Valid()
      modifies this
      ensures loaded == old(loaded) + JqueryOrder(dependencies, rank, false) +
                        (if PhpArray.HasKey(old(registry), m) then [] else LoadOrder(dependencies, rank, m))
      ensures registry == BindEntry(old(registry), m, SelectorKey(selector))
    {
      LoadJquery(false);
      if !PhpArray.HasKey(registry, m) {
        registry := PhpArray.Assign(registry, m, []);
        Load(m);
      }
      var key := SelectorKey(selector);
      var sels := SelectorsOf(registry, m);
      registry := PhpArray.Assign(registry, m, PhpArray.Assign(sels, key, true));
    }

    /** `getBindCode`. */
    method GetBindCode() returns (code: string)
      ensures code == BindCode(registry)
    {
      if |registry| > 0 {
        code := ReadyOpen;
        for i := 0 to |registry|
          invariant code == ReadyOpen + MethodsCode(registry[..i])
        {
          assert registry[..i + 1][..i] == registry[..i];
          var m := registry[i].0;
          var sels := registry[i].1;
          ghost var before := code;
          for j := 0 to |sels|
            invariant code == before + SelectorsCode(m, sels[..j])
          {
            assert sels[..j + 1][..j] == sels[..j];
            var selector := sels[j].0;
            var statement;
            if |selector| > 0 {
              statement := "$('" + selector + "').each(function() { " + m + "(this); });";
            } else {
              statement := m + "();";
            }
            assert statement == Statement(m, selector);
            Text.AppendAssoc(before, SelectorsCode(m, sels[..j]), statement);
            code := code + statement;
          }
          assert sels[..|sels|] == sels;
          Text.AppendAssoc(ReadyOpen, MethodsCode(registry[..i]), SelectorsCode(m, sels));
        }
        assert registry[..|registry|] == registry;
        code := code + ReadyClose;
      } else {
        code := "";
      }
    }
  }

  /** One bind on a fresh registry with no dependencies: the code runs that one statement. */
  lemma SingleBindCode(m: string, selector: Option<string>)
    ensures BindCode(BindEntry([], m, SelectorKey(selector))) ==
              "$(document).ready(function() {" + Statement(m, SelectorKey(selector)) + "});"
  {
    var key := SelectorKey(selector);
    var reg := BindEntry([], m, key);
    assert reg == [(m, [(key, true)])];
    assert SelectorsCode(m, [(key, true)]) == Statement(m, key);
    assert MethodsCode(reg) == Statement(m, key);
  }
}

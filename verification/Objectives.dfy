/**
 The running objective. It is updated with every change, and must at any time equal the weighted sum over the
 globals, the data of every scope that counts, and the final status attributes of completed scopes.
 */
module Objectives {
  import opened Basics
  import opened Sequences

  /** A declared attribute; the index counts inherited values too. */
  datatype Attribute = Attribute(index: nat, weight: int)

  /** The storage of a data value, with the weight of its attribute. */
  datatype Cell = Cell(weight: int, value: Value)

  function ValueOrZero(v: Value): int {
    if v.Some? then v.value else 0
  }

  /** The contribution of a value to the objective, in exact arithmetic. */
  ghost function Weighted(c: Cell): int {
    if c.value.Some? then c.weight * c.value.value else 0
  }

  /** The contributions of the counted cells among the first n. */
  ghost function Total(cells: seq<Cell>, counted: set<nat>, n: nat): int
    requires n <= |cells|
  {
    if n == 0 then 0
    else Total(cells, counted, n - 1) + if n - 1 in counted then Weighted(cells[n - 1]) else 0
  }

  lemma {:induction false} TotalOfReplaced(cells: seq<Cell>, counted: set<nat>, n: nat, p: nat, c: Cell)
    requires p < |cells| && n <= |cells|
    ensures Total(cells[p := c], counted, n)
         == Total(cells, counted, n) + if p < n && p in counted then Weighted(c) - Weighted(cells[p]) else 0
  {
    if n > 0 {
      TotalOfReplaced(cells, counted, n - 1, p, c);
    }
  }

  lemma {:induction false} TotalOfCounted(cells: seq<Cell>, counted: set<nat>, n: nat, p: nat)
    requires p < |cells| && n <= |cells| && p !in counted
    ensures Total(cells, counted + {p}, n) == Total(cells, counted, n) + if p < n then Weighted(cells[p]) else 0
  {
    if n > 0 {
      TotalOfCounted(cells, counted, n - 1, p);
    }
  }

  lemma {:induction false} TotalOfLonger(cells: seq<Cell>, more: seq<Cell>, counted: set<nat>, n: nat)
    requires n <= |cells + more| && forall p <- counted :: p < |cells|
    ensures Total(cells + more, counted, n) == Total(cells, counted, Min(n, |cells|))
  {
    if n > 0 {
      TotalOfLonger(cells, more, counted, n - 1);
    }
  }

  ghost function AllBelow(n: nat): (all: set<nat>)
    ensures forall k: nat :: k in all <==> k < n
  {
    if n == 0 then {} else AllBelow(n - 1) + {n - 1}
  }

  /** What completed scopes have contributed. */
  ghost function TotalOfFinals(finals: seq<Cell>): int {
    if finals == [] then 0 else TotalOfFinals(ButLast(finals)) + Weighted(Last(finals))
  }

  lemma {:induction false} TotalOfConcatenated(a: seq<Cell>, b: seq<Cell>)
    ensures TotalOfFinals(a + b) == TotalOfFinals(a) + TotalOfFinals(b)
  {
    if b == [] {
      assert a + b == a;
    } else {
      assert ButLast(a + b) == a + ButLast(b);
      TotalOfConcatenated(a, ButLast(b));
    }
  }

  ghost function TotalOfChanges(changes: seq<int>): int {
    if changes == [] then 0 else TotalOfChanges(ButLast(changes)) + Last(changes)
  }

  /** The data of a scope refers to the storage of the enclosing scopes, followed by that of the values it owns. */
  datatype Scope = Scope(chain: seq<nat>, firstOwned: nat, declared: seq<Attribute>) {
    ghost predicate Within(size: nat) {
      firstOwned <= |chain| && Distinct(chain) && forall k | 0 <= k < |chain| :: chain[k] < size
    }

    ghost function OwnedCells(): set<nat>
      requires firstOwned <= |chain|
    {
      set k | firstOwned <= k < |chain| :: chain[k]
    }
  }

  /** The declared attributes at or behind a position. */
  function From(declared: seq<Attribute>, first: nat): seq<Attribute> {
    if declared == [] then []
    else From(ButLast(declared), first) + (if Last(declared).index >= first then [Last(declared)] else [])
  }

  /** The scope declares one attribute for each value it owns, in their order; any other is one of an ancestor. */
  ghost predicate WellDeclared(scope: Scope, cells: seq<Cell>)
    requires scope.Within(|cells|)
  {
    var own := From(scope.declared, scope.firstOwned);
    && |own| == |scope.chain| - scope.firstOwned
    && forall j | 0 <= j < |own| ::
         own[j].index == scope.firstOwned + j && own[j].weight == cells[scope.chain[scope.firstOwned + j]].weight
  }

  /** The weighted values of a list of attributes of a scope. */
  ghost function SumOf(attributes: seq<Attribute>, scope: Scope, cells: seq<Cell>): int
    requires scope.Within(|cells|) && forall a <- attributes :: a.index < |scope.chain|
  {
    if attributes == [] then 0
    else
      assert Last(attributes) in attributes;
      SumOf(ButLast(attributes), scope, cells)
      + Weighted(Cell(Last(attributes).weight, cells[scope.chain[Last(attributes).index]].value))
  }

  ghost function OwnedUpTo(scope: Scope, n: nat): set<nat>
    requires scope.firstOwned + n <= |scope.chain|
  {
    set k | scope.firstOwned <= k < scope.firstOwned + n :: scope.chain[k]
  }

  /** Counting the values a scope owns adds the sum of its own attributes. */
  lemma {:induction false} CountingAdds(scope: Scope, cells: seq<Cell>, counted: set<nat>, own: seq<Attribute>, n: nat)
    requires scope.Within(|cells|) && n <= |own| == |scope.chain| - scope.firstOwned
    requires forall j | 0 <= j < |own| ::
               own[j].index == scope.firstOwned + j && own[j].weight == cells[scope.chain[scope.firstOwned + j]].weight
    requires counted !! scope.OwnedCells()
    ensures forall a <- own[..n] :: a.index < |scope.chain|
    ensures Total(cells, counted + OwnedUpTo(scope, n), |cells|)
         == Total(cells, counted, |cells|) + SumOf(own[..n], scope, cells)
  {
    if n == 0 {
      assert counted + OwnedUpTo(scope, 0) == counted;
    } else {
      var p := scope.chain[scope.firstOwned + n - 1];
      CountingAdds(scope, cells, counted, own, n - 1);
      assert ButLast(own[..n]) == own[..n - 1];
      assert OwnedUpTo(scope, n) == OwnedUpTo(scope, n - 1) + {p};
      assert p in scope.OwnedCells() && p !in OwnedUpTo(scope, n - 1);
      assert counted + OwnedUpTo(scope, n) == (counted + OwnedUpTo(scope, n - 1)) + {p};
      TotalOfCounted(cells, counted + OwnedUpTo(scope, n - 1), |cells|, p);
    }
  }

  lemma CountingOwned(scope: Scope, cells: seq<Cell>, counted: set<nat>)
    requires scope.Within(|cells|) && WellDeclared(scope, cells) && counted !! scope.OwnedCells()
    ensures forall a <- From(scope.declared, scope.firstOwned) :: a.index < |scope.chain|
    ensures forall p <- scope.OwnedCells() :: p < |cells|
    ensures Total(cells, counted + scope.OwnedCells(), |cells|)
         == Total(cells, counted, |cells|) + SumOf(From(scope.declared, scope.firstOwned), scope, cells)
  {
    hide From, SumOf, Total;
    var own := From(scope.declared, scope.firstOwned);
    CountingAdds(scope, cells, counted, own, |own|);
    assert own[..|own|] == own && OwnedUpTo(scope, |own|) == scope.OwnedCells();
  }

  class SystemState {
    var cells: seq<Cell>
    var scopes: seq<Scope>
    var objective: int

    /** The cells of the scopes that count, the final status attributes accounted, and the changes announced. */
    ghost var counted: set<nat>
    ghost var finals: seq<Cell>
    ghost var changes: seq<int>
    ghost var initial: int

    ghost predicate WellFormed()
      reads this
    {
      && (forall scope <- scopes :: scope.Within(|cells|) && WellDeclared(scope, cells))
      && (forall p <- counted :: p < |cells|)
    }

    /** The objective is what recomputing it would give, and the changes announced add up to it. */
    ghost predicate Conserved()
      reads this
      requires WellFormed()
    {
      && objective == Total(cells, counted, |cells|) + TotalOfFinals(finals)
      && objective == initial + TotalOfChanges(changes)
    }

    ghost predicate Valid()
      reads this
    {
      WellFormed() && Conserved()
    }

    method AddToObjective(change: int)
      modifies this`objective, this`changes
      ensures objective == old(objective) + change
      ensures TotalOfChanges(changes) == TotalOfChanges(old(changes)) + change
    {
      if change != 0 {
        objective := objective + change;
        changes := changes + [change];
        assert ButLast(changes) == old(changes);
      }
    }

    /** The globals are accounted from the start; no change is announced for them. */
    constructor (globals: seq<Cell>)
      ensures Valid() && cells == globals && scopes == [] && finals == [] && changes == []
      ensures counted == AllBelow(|globals|)
    {
      var total := 0;
      ghost var all := AllBelow(|globals|);
      for k := 0 to |globals|
        invariant total == Total(globals, all, k)
      {
        if globals[k].weight != 0 && globals[k].value.Some? {
          total := total + globals[k].value.value * globals[k].weight;
        }
      }
      cells, objective, scopes := globals, total, [];
      initial, finals, changes, counted := total, [], [], all;
    }

    /** A scope is created within the scope whose data it refers to; its own values do not count yet. */
    method CreateScope(parent: seq<nat>, owned: seq<Cell>, declared: seq<Attribute>) returns (scope: Scope)
      requires Valid() && Distinct(parent) && (forall k | 0 <= k < |parent| :: parent[k] < |cells|)
      requires From(declared, |parent|) == OwnAttributes(|parent|, owned)
      modifies this`cells, this`scopes
      ensures Valid() && cells == old(cells) + owned && scopes == old(scopes) + [scope]
      ensures scope == Scope(parent + NewCells(|old(cells)|, |owned|), |parent|, declared)
      ensures counted !! scope.OwnedCells()
    {
      TotalOfLonger(cells, owned, counted, |cells + owned|);
      scope := Scope(parent + NewCells(|cells|, |owned|), |parent|, declared);
      forall other <- scopes ensures other.Within(|cells + owned|) && WellDeclared(other, cells + owned) {
        assert other.Within(|cells|) && WellDeclared(other, cells);
      }
      NewScope(cells, parent, owned, declared);
      cells := cells + owned;
      scopes := scopes + [scope];
    }

    /** The values a scope owns are replaced before they count. */
    method SetInitialValue(scope: Scope, position: nat, value: Value)
      requires Valid() && scope in scopes && scope.firstOwned <= position < |scope.chain| && counted !! scope.OwnedCells()
      modifies this`cells
      ensures Valid()
      ensures cells == old(cells)[scope.chain[position] := Cell(old(cells)[scope.chain[position]].weight, value)]
    {
      var p := scope.chain[position];
      assert p in scope.OwnedCells();
      TotalOfReplaced(cells, counted, |cells|, p, Cell(cells[p].weight, value));
      SameWeights(cells, p, value);
      cells := cells[p := Cell(cells[p].weight, value)];
    }

    /** The values a scope owns count from now on; those of the enclosing scopes are accounted there. */
    method UpdateObjective(scope: Scope)
      requires Valid() && scope in scopes && counted !! scope.OwnedCells()
      modifies this`objective, this`changes, this`counted
      ensures Valid() && counted == old(counted) + scope.OwnedCells()
    {
      CountingOwned(scope, cells, counted);
      assert scope.Within(|cells|) && WellDeclared(scope, cells);
      hide WellDeclared, Total, SumOf, From;
      var change := DeclaredSum(scope);
      AddToObjective(change);
      counted := counted + scope.OwnedCells();
    }

    method DeclaredSum(scope: Scope) returns (sum: int)
      requires scope.Within(|cells|) && WellDeclared(scope, cells)
      ensures forall a <- From(scope.declared, scope.firstOwned) :: a.index < |scope.chain|
      ensures sum == SumOf(From(scope.declared, scope.firstOwned), scope, cells)
    {
      hide From, SumOf, Scope.Within;
      sum := 0;
      ghost var own := From(scope.declared, scope.firstOwned);
      ghost var m: nat := 0;
      OwnIsWithin(scope, cells);
      for k := 0 to |scope.declared|
        invariant m <= |own| && From(scope.declared[..k], scope.firstOwned) == own[..m]
        invariant sum == SumOf(own[..m], scope, cells)
      {
        var a := scope.declared[k];
        NextOwn(scope.declared, scope.firstOwned, k, m);
        if a.index >= scope.firstOwned {
          SumStep(own, m, scope, cells);
          if a.weight != 0 && cells[scope.chain[a.index]].value.Some? {
            sum := sum + cells[scope.chain[a.index]].value.value * a.weight;
          }
          m := m + 1;
        }
      }
      assert scope.declared[..|scope.declared|] == scope.declared;
    }

    /** Replaces a value in its cell, whichever scope owns that, and says by how much the weighted value has changed. */
    method SetValue(scope: Scope, attribute: Attribute, value: Value) returns (change: int)
      requires Valid() && scope in scopes && attribute.index < |scope.chain|
      requires attribute.weight == cells[scope.chain[attribute.index]].weight
      modifies this`cells
      ensures WellFormed()
      ensures
        var p := scope.chain[attribute.index];
        && cells == old(cells)[p := Cell(attribute.weight, value)]
        && change == Weighted(cells[p]) - Weighted(old(cells)[p])
        && Total(cells, counted, |cells|) == Total(old(cells), counted, |cells|) + if p in counted then change else 0
    {
      var p := scope.chain[attribute.index];
      var previous := cells[p].value;
      TotalOfReplaced(cells, counted, |cells|, p, Cell(attribute.weight, value));
      SameWeights(cells, p, value);
      cells := cells[p := Cell(attribute.weight, value)];
      change := (ValueOrZero(value) - ValueOrZero(previous)) * attribute.weight;
    }

    /**
     A write of a data attribute is announced as a change of the objective. The objective is conserved exactly if
     the value counts or the write changes nothing that matters.
     */
    method Write(scope: Scope, attribute: Attribute, value: Value)
      requires Valid() && scope in scopes && attribute.index < |scope.chain|
      requires attribute.weight == cells[scope.chain[attribute.index]].weight
      modifies this`cells, this`objective, this`changes
      ensures WellFormed()
      ensures
        var p := scope.chain[attribute.index];
        && cells == old(cells)[p := Cell(attribute.weight, value)]
        && (Conserved() <==> p in counted || Weighted(cells[p]) == Weighted(old(cells)[p]))
    {
      var change := SetValue(scope, attribute, value);
      AddToObjective(change);
    }

    /** The status attributes declared for a scope are accounted with their final values when it completes. */
    method Complete(attributes: seq<Cell>)
      requires Valid()
      modifies this`objective, this`changes, this`finals
      ensures Valid() && finals == old(finals) + attributes
    {
      var change := 0;
      for k := 0 to |attributes|
        invariant change == TotalOfFinals(attributes[..k])
      {
        assert ButLast(attributes[..k + 1]) == attributes[..k];
        if attributes[k].weight != 0 && attributes[k].value.Some? {
          change := change + attributes[k].value.value * attributes[k].weight;
        }
      }
      assert attributes[..|attributes|] == attributes;
      AddToObjective(change);
      TotalOfConcatenated(finals, attributes);
      finals := finals + attributes;
    }
  }

  lemma OwnIsWithin(scope: Scope, cells: seq<Cell>)
    requires scope.Within(|cells|) && WellDeclared(scope, cells)
    ensures var own := From(scope.declared, scope.firstOwned);
            && (forall j | 0 <= j < |own| :: own[j].index < |scope.chain|)
            && SumOf(own[..0], scope, cells) == 0 && From(scope.declared[..0], scope.firstOwned) == own[..0] == []
    ensures forall k | 0 <= k < |scope.chain| :: scope.chain[k] < |cells|
  {
  }

  /** The next attribute is the next of those owned, or not owned. */
  lemma NextOwn(declared: seq<Attribute>, first: nat, k: nat, m: nat)
    requires k < |declared| && m <= |From(declared, first)|
    requires From(declared[..k], first) == From(declared, first)[..m]
    ensures var own := From(declared, first);
            if declared[k].index >= first then
              m < |own| && own[m] == declared[k] && From(declared[..k + 1], first) == own[..m + 1]
            else From(declared[..k + 1], first) == own[..m]
  {
    hide From;
    var own := From(declared, first);
    FromPrefix(declared, first, k);
    if declared[k].index >= first {
      var longer := own[..m] + [declared[k]];
      assert longer[m] == declared[k] && longer <= own;
      assert own[..m + 1] == longer;
    }
  }

  lemma SumStep(own: seq<Attribute>, m: nat, scope: Scope, cells: seq<Cell>)
    requires scope.Within(|cells|) && m < |own| && forall j | 0 <= j < |own| :: own[j].index < |scope.chain|
    ensures SumOf(own[..m + 1], scope, cells)
         == SumOf(own[..m], scope, cells) + Weighted(Cell(own[m].weight, cells[scope.chain[own[m].index]].value))
  {
    assert ButLast(own[..m + 1]) == own[..m];
  }

  /** The cells of a scope created when there are as many cells as given. */
  function NewCells(size: nat, n: nat): (positions: seq<nat>)
    ensures |positions| == n && forall j | 0 <= j < n :: positions[j] == size + j
  {
    seq(n, j requires 0 <= j < n => size + j)
  }

  /** One attribute for each value owned, behind those inherited. */
  function OwnAttributes(first: nat, owned: seq<Cell>): (own: seq<Attribute>)
    ensures |own| == |owned| && forall j | 0 <= j < |owned| :: own[j] == Attribute(first + j, owned[j].weight)
  {
    seq(|owned|, j requires 0 <= j < |owned| => Attribute(first + j, owned[j].weight))
  }

  lemma NewScope(cells: seq<Cell>, parent: seq<nat>, owned: seq<Cell>, declared: seq<Attribute>)
    requires Distinct(parent) && forall k | 0 <= k < |parent| :: parent[k] < |cells|
    requires From(declared, |parent|) == OwnAttributes(|parent|, owned)
    ensures
      var scope := Scope(parent + NewCells(|cells|, |owned|), |parent|, declared);
      scope.Within(|cells + owned|) && WellDeclared(scope, cells + owned)
  {
    hide From;
    var chain := parent + NewCells(|cells|, |owned|);
    var own := OwnAttributes(|parent|, owned);
    forall k | 0 <= k < |chain| ensures chain[k] == if k < |parent| then parent[k] else |cells| + (k - |parent|) {
    }
    forall i, j | 0 <= i < j < |chain| ensures chain[i] != chain[j] {
    }
    forall j | 0 <= j < |own| ensures own[j].weight == (cells + owned)[chain[|parent| + j]].weight {
      assert own[j] == Attribute(|parent| + j, owned[j].weight);
      assert chain[|parent| + j] == |cells| + j;
    }
  }

  lemma SameWeights(cells: seq<Cell>, p: nat, value: Value)
    requires p < |cells|
    ensures forall scope: Scope | scope.Within(|cells|) && WellDeclared(scope, cells) ::
              WellDeclared(scope, cells[p := Cell(cells[p].weight, value)])
  {
  }

  lemma {:induction false} FromPrefix(declared: seq<Attribute>, first: nat, k: nat)
    requires k < |declared|
    ensures From(declared[..k + 1], first)
         == From(declared[..k], first) + if declared[k].index >= first then [declared[k]] else []
    ensures From(declared[..k + 1], first) <= From(declared, first)
    decreases |declared|
  {
    assert ButLast(declared[..k + 1]) == declared[..k];
    if k + 1 < |declared| {
      FromPrefix(ButLast(declared), first, k);
      assert ButLast(declared)[..k + 1] == declared[..k + 1];
    } else {
      assert declared[..k + 1] == declared;
    }
  }
}

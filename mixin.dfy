/** The undo/redo mixins of
    cpp/patterns_and_practics/static_polymorphism/mixin.cpp. Number holds an
    int; Undoable<Number> adds `before`, the value a set replaced; and
    Redoable<Undoable<Number>>, the ReUndoableNumber of the program, adds
    `after`, the value last set. Each layer is a class holding its own field
    and those of the layers below it, and its methods do what the layer's
    methods do through the base's. */
module Mixin {

  /** Number: set stores the value, get reads it. */
  class Number {
    var n: int

    constructor()
    {
    }

    method Set(v: int)
      modifies this
      ensures n == v
    {
      n := v;
    }

    function Get(): int
      reads this
    {
      n
    }
  }

  /** Undoable<Number>: set first saves the current value in before; undo
      sets before back. */
  class UndoableNumber {
    var n: int
    var before: int

    constructor()
    {
    }

    function Get(): int
      reads this
    {
      n
    }

    method Set(v: int)
      modifies this
      ensures before == old(n) && n == v
    {
      before := n;
      n := v;
    }

    /** undo goes through Number's set, so before is kept and a second undo
        changes nothing. */
    method Undo()
      modifies this
      ensures n == old(before) && before == old(before)
    {
      n := before;
    }
  }

  /** Redoable<Undoable<Number>>: set records the value in after and then
      calls Undoable's set; redo calls Undoable's set with after, which saves
      the current value in before again. */
  class ReUndoableNumber {
    var n: int
    var before: int
    var after: int

    constructor()
    {
    }

    function Get(): int
      reads this
    {
      n
    }

    method Set(v: int)
      modifies this
      ensures after == v && before == old(n) && n == v
    {
      after := v;
      UndoableSet(v);
    }

    /** Undoable's set, which this layer's set and redo both reach. */
    method UndoableSet(v: int)
      modifies this
      ensures before == old(n) && n == v && after == old(after)
    {
      before := n;
      n := v;
    }

    /** undo is Undoable's: the value goes back to before, and nothing else
        moves. */
    method Undo()
      modifies this
      ensures n == old(before) && before == old(before) && after == old(after)
    {
      n := before;
    }

    method Redo()
      modifies this
      ensures n == old(after) && before == old(n) && after == old(after)
    {
      UndoableSet(after);
    }
  }

  /** A set followed by a get reads the value back. */
  method NumberRoundTrip(v: int) returns (r: int)
    ensures r == v
  {
    var number := new Number();
    number.Set(v);
    r := number.Get();
  }

  /** Undo after set restores the value the set replaced, and undoing again
      changes nothing: there is one level of undo. */
  method UndoRestores(start: int, v: int) returns (afterSet: int, afterUndo: int, afterSecondUndo: int)
    ensures afterSet == v && afterUndo == start && afterSecondUndo == start
  {
    var number := new UndoableNumber();
    number.Set(start);
    number.Set(v);
    afterSet := number.Get();
    number.Undo();
    afterUndo := number.Get();
    number.Undo();
    afterSecondUndo := number.Get();
  }

  /** Redo after undo brings the undone value back, and an undo after that
      goes back to the value the redo replaced. */
  method RedoRestores(start: int, v: int) returns (afterRedo: int, afterUndo: int)
    ensures afterRedo == v && afterUndo == start
  {
    var number := new ReUndoableNumber();
    number.Set(start);
    number.Set(v);
    number.Undo();
    number.Redo();
    afterRedo := number.Get();
    number.Undo();
    afterUndo := number.Get();
  }

  /** The program's run: set 42 and 84 reads 84, undo reads 42, redo reads
      84 again. */
  method MixinExample() returns (first: int, second: int, third: int)
    ensures first == 84 && second == 42 && third == 84
  {
    var mynum := new ReUndoableNumber();
    mynum.Set(42);
    mynum.Set(84);
    first := mynum.Get();
    mynum.Undo();
    second := mynum.Get();
    mynum.Redo();
    third := mynum.Get();
  }
}

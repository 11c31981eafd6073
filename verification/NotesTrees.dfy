/** The tree of notes as the set of its elements. Its root hash is a function of that set; an
    element's slot is given by its 160 least significant bits. */
module NotesTrees {
  import opened Wrappers

  type Element = nat
  const ZERO: Element := 0
  const SLOTS: nat := 0x1_0000_0000_0000_0000_0000_0000_0000_0000_0000_0000
  const MODULUS: Element := 0x3064_4e72_e131_a029_b850_45b6_8181_585d_2833_e848_79b9_7091_43e1_f593_f000_0001

  type RootFunction = set<Element> -> Element

  function Lsb(e: Element): nat {
    e % SLOTS
  }

  function Lsbs(s: set<Element>): set<nat> {
    set x | x in s :: Lsb(x)
  }

  /** No two elements share a slot. */
  predicate Apart(s: set<Element>) {
    forall x, y | x in s && y in s :: Lsb(x) == Lsb(y) ==> x == y
  }

  /** Of the extra elements, those whose slot is free. */
  function Fitting(tree: set<Element>, extra: set<Element>): set<Element> {
    set x | x in extra && Lsb(x) !in Lsbs(tree)
  }

  /** The root the tree would have with the extra elements: a taken slot keeps its element,
      and two extras in one free slot trip an assertion. */
  function RootWith(root: RootFunction, tree: set<Element>, extra: set<Element>): Option<Element> {
    if Apart(Fitting(tree, extra)) then Some(root(tree + Fitting(tree, extra))) else None
  }

  /** What an accepted insert does to the root is what was computed beforehand. */
  lemma RootWithIsRootAfter(root: RootFunction, tree: set<Element>, extra: set<Element>)
    requires Apart(extra) && Lsbs(extra) !! Lsbs(tree)
    ensures RootWith(root, tree, extra) == Some(root(tree + extra))
  {
    assert forall x :: x in extra ==> Lsb(x) in Lsbs(extra);
    assert Fitting(tree, extra) == extra;
  }

  /** Inserting part of the extras first, when that part is accepted, does not change the root
      computed with the rest, colliding or not. */
  lemma RootWithInTwoSteps(root: RootFunction, tree: set<Element>, first: set<Element>, rest: set<Element>)
    requires Apart(first) && Lsbs(first) !! Lsbs(tree) && first !! rest
    requires RootWith(root, tree, first + rest).Some?
    ensures RootWith(root, tree + first, rest) == RootWith(root, tree, first + rest)
  {
    var all := Fitting(tree, first + rest);
    var later := Fitting(tree + first, rest);
    assert forall x :: x in first ==> Lsb(x) in Lsbs(first) && x in all;
    assert Lsbs(tree + first) == Lsbs(tree) + Lsbs(first);
    assert later <= all;
    forall x | x in rest && x in all ensures x in later {
      assert forall y :: y in first && Lsb(y) == Lsb(x) ==> y == x;
    }
    assert tree + first + later == tree + all;
  }

  /** A batch under construction. */
  class Batch {
    var elements: set<Element>
    var lsbs: set<nat>

    ghost predicate Valid()
      reads this
    {
      Apart(elements) && lsbs == Lsbs(elements)
    }

    constructor ()
      ensures Valid() && elements == {}
    {
      elements, lsbs := {}, {};
    }

    /** Refuses an element whose slot is taken, itself included. */
    method Insert(e: Element) returns (ok: bool)
      requires Valid()
      modifies this
      ensures Valid()
      ensures ok <==> Lsb(e) !in old(Lsbs(elements))
      ensures elements == if ok then old(elements) + {e} else old(elements)
    {
      ok := Lsb(e) !in lsbs;
      if ok {
        elements, lsbs := elements + {e}, lsbs + {Lsb(e)};
      }
    }
  }

  /** How inserting a batch ends. The null element passes the check of the slots; the insert
      proper refuses it, which the caller takes for impossible. */
  datatype Insertion = Inserted | SlotTaken | NullPanic

  class NotesTree {
    var elements: set<Element>

    constructor ()
      ensures elements == {}
    {
      elements := {};
    }

    /** All or nothing: one taken slot refuses the whole batch, and the null element panics. */
    method InsertBatch(batch: Batch) returns (r: Insertion)
      requires batch.Valid()
      modifies this
      ensures r == SlotTaken <==> !(Lsbs(batch.elements) !! old(Lsbs(elements)))
      ensures r == NullPanic <==> Lsbs(batch.elements) !! old(Lsbs(elements)) && ZERO in batch.elements
      ensures elements == if r == Inserted then old(elements) + batch.elements else old(elements)
    {
      if !(batch.lsbs !! Lsbs(elements)) {
        return SlotTaken;
      }
      if ZERO in batch.elements {
        return NullPanic;
      }
      elements := elements + batch.elements;
      return Inserted;
    }
  }
}

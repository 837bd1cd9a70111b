/**
  The compile-time queries made by the demonstration program's `main`,
  stated as facts about the model.
 */
module Driver {
  import opened TypeLists

  const Float := Named("float")
  const Double := Named("double")
  const Int := Named("int")
  const StdString := Named("std::string")
  const Char := Named("char")
  const DoublePtrPtr := Ptr(Ptr(Double))
  const IntPtrPtr := Ptr(Ptr(Int))

  /** `type_list<float, float, double, int>` */
  const List: Ty := TList([Float, Float, Double, Int])
  /** `type_list<std::string, char, double**>` */
  const List2: Ty := TList([StdString, Char, DoublePtrPtr])

  /** `append_t<List, List2>` */
  function App(): Ty {
    Append(List, List2)
  }

  /** `prepend_t<List2, int**>` */
  function Prep(): Ty {
    Prepend(List2, IntPtrPtr)
  }

  /** `size_v<type_list<>>` is 0. */
  lemma EmptySize()
    ensures Length(TList([])) == 0
  {
  }

  /** The merged list has 7 types and its last, `nth_child_t<app, size_v<app> - 1>`,
      is `double**`. */
  lemma AppendScenario()
    ensures Length(App()) == 7
    ensures NthChildDefined(App(), Length(App()) - 1)
    ensures NthChild(App(), Length(App()) - 1) == DoublePtrPtr
  {
  }

  /** The prepended list has 4 types and `nth_child_t<prep, 0>` is `int**`. */
  lemma PrependScenario()
    ensures Length(Prep()) == 4
    ensures NthChildDefined(Prep(), 0) && NthChild(Prep(), 0) == IntPtrPtr
  {
  }

  /** `int**` is not in the four-type list, and is in the prepended one. */
  lemma ContainsScenario()
    ensures !Contains(List, IntPtrPtr)
    ensures Contains(Prep(), IntPtrPtr)
  {
  }

  /** Prepending the head `type_list<int>` of `type_list<type_list<int>>` to
      its tail gives `type_list<int>`, not the original list. */
  lemma NestedHeadExample()
    ensures Prepend(Tail(TList([TList([Int])])), Head(TList([TList([Int])]))) == TList([Int])
    ensures TList([Int]) != TList([TList([Int])])
  {
  }
}

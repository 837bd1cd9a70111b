/**
  A compile-time list of C++ types and the operations defined on it by
  template specialisation.

  A C++ type is modelled as a value of `Ty`; a template instantiation that
  the compiler accepts is a call whose `requires` holds, and one that it
  rejects (a failing `static_assert`, a missing member type, an incomplete
  or ambiguous specialisation) is a call whose `requires` fails.
 */
module TypeLists {

  /** The C++ types the templates are applied to. */
  datatype Ty =
    | NullT                   // `null_t`, the end-of-list marker; not a list itself
    | Named(name: string)     // an ordinary type without `head`/`tail` members
    | Ptr(pointee: Ty)        // a pointer type `T*`
    | TList(items: seq<Ty>)   // `type_list<items...>`

  /** Bounds the recursion down the `tail` chain: `tail` of a list has a smaller rank. */
  function Rank(t: Ty): nat {
    if t.TList? then |t.items| + 1 else 0
  }

  /** The element sequence an operand of `append` contributes: a list its
      elements, a bare type itself. */
  function Operand(t: Ty): seq<Ty> {
    if t.TList? then t.items else [t]
  }

  // ---------------------------------------------------------------------
  // Representation: `type_list<H, T...>` and `type_list<>`, `head_t`, `tail_t`
  // ---------------------------------------------------------------------

  /** `head_t<L>`: only the two `type_list` specialisations have a `head`;
      the empty list's is `null_t`. */
  function Head(l: Ty): Ty
    requires l.TList?
  {
    if l.items == [] then NullT else l.items[0]
  }

  /** `tail_t<L>`: the remaining list; the empty list's tail is `null_t`,
      not `type_list<>`. */
  function Tail(l: Ty): Ty
    requires l.TList?
  {
    if l.items == [] then NullT else TList(l.items[1..])
  }

  /** A non-empty list is its head followed by the elements of its tail. */
  lemma HeadTailDecompose(l: Ty)
    requires l.TList? && l.items != []
    ensures Tail(l).TList?
    ensures l.items == [Head(l)] + Tail(l).items
  {
  }

  /** Both member types of `type_list<>` are `null_t`, which is not the empty list. */
  lemma EmptyListFields()
    ensures Head(TList([])) == NullT
    ensures Tail(TList([])) == NullT
    ensures Tail(TList([])) != TList([])
  {
  }

  // ---------------------------------------------------------------------
  // `is_nil`
  // ---------------------------------------------------------------------

  /** `is_nil<T>`: false by default, true for the specialisation `type_list<>`. */
  predicate IsNil(t: Ty) {
    t == TList([])
  }

  // ---------------------------------------------------------------------
  // `length`, `length_v`, `size_v`
  // ---------------------------------------------------------------------

  /** `length<T>`. The primary template needs `tail_t<T>`, so `T` must be a
      list, or `null_t`, which has its own specialisation. Both operands of
      the `?:` in the primary template are instantiated, so the length of the
      tail is formed even for `type_list<>`, whose tail is `null_t`. */
  function Length(t: Ty): (n: nat)
    requires t == NullT || t.TList?
    ensures n == if t.TList? then |t.items| else 0
    decreases Rank(t)
  {
    if t == NullT then 0
    else
      var rest := Length(Tail(t));
      if IsNil(t) then 0 else 1 + rest
  }

  /** `is_nil` holds of `type_list<>` only; `null_t` also has length 0
      but is not nil, so the two terminals are distinct. */
  lemma IsNilExactlyEmptyList(t: Ty)
    ensures IsNil(t) <==> t.TList? && |t.items| == 0  // the definition, in terms of the elements
    ensures t == NullT || t.TList? ==> (Length(t) == 0 <==> IsNil(t) || t == NullT)
    ensures !IsNil(NullT) && Length(NullT) == 0
  {
  }

  /** `k` steps down the `tail` chain (the nested `next` members). */
  function TailN(l: Ty, k: nat): (r: Ty)
    requires l.TList? && k <= |l.items|
    ensures r.TList? && r.items == l.items[k..]
    decreases k
  {
    if k == 0 then l else TailN(Tail(l), k - 1)
  }

  /** The length of a list is the number of `tail` steps that lead to
      `type_list<>`; one step further gives `null_t`. */
  lemma LengthCountsTailSteps(l: Ty)
    requires l.TList?
    ensures IsNil(TailN(l, Length(l)))
    ensures Tail(TailN(l, Length(l))) == NullT
    ensures forall k :: 0 <= k < Length(l) ==> !IsNil(TailN(l, k))
  {
  }

  // ---------------------------------------------------------------------
  // `nth_child`, `nth_child_t`
  // ---------------------------------------------------------------------

  /** Whether `nth_child<T, N>` compiles. `nth_child<null_t, N>` is a
      partial specialisation for every `N` except 0, where it and
      `nth_child<T, 0>` both match and neither is more specialised.
      `nth_child<T, 0>` needs `head_t<T>`. The primary template asserts that
      `T` is not `type_list<>` and that `N > 0`, and needs `tail_t<T>`. */
  predicate NthChildDefined(t: Ty, n: int)
    decreases Rank(t)
  {
    if t == NullT then n != 0
    else if n == 0 then t.TList?
    else t.TList? && !IsNil(t) && n > 0 && NthChildDefined(Tail(t), n - 1)
  }

  /** `nth_child_t<T, N>`: the element in position `N`, where position
      `length` is the empty list's head `null_t`. */
  function NthChild(t: Ty, n: int): (r: Ty)
    requires NthChildDefined(t, n)
    ensures t == NullT ==> r == NullT
    ensures t.TList? ==>
      0 <= n <= |t.items| && r == if n < |t.items| then t.items[n] else NullT
    decreases Rank(t)
  {
    if t == NullT then NullT
    else if n == 0 then Head(t)
    else NthChild(Tail(t), n - 1)
  }

  /** `nth_child` compiles on a list exactly for the indices 0 to its length,
      and on `null_t` for every index but 0; on any other type never. */
  lemma {:induction false} NthChildDefinedExactly(t: Ty, n: int)
    ensures NthChildDefined(t, n) <==>
      (t == NullT && n != 0) || (t.TList? && 0 <= n <= |t.items|)
    decreases Rank(t)
  {
    if t.TList? && t.items != [] && n > 0 {
      NthChildDefinedExactly(Tail(t), n - 1);
    }
  }

  /** Index 0 is the head, the index one past the last element is `null_t`,
      and the indices below 0 or beyond that do not compile. */
  lemma NthChildAtEnds(l: Ty)
    requires l.TList?
    ensures NthChildDefined(l, 0) && NthChild(l, 0) == Head(l)
    ensures NthChildDefined(l, Length(l)) && NthChild(l, Length(l)) == NullT
    ensures !NthChildDefined(l, Length(l) + 1) && !NthChildDefined(l, -1)
  {
    NthChildDefinedExactly(l, 0);
    NthChildDefinedExactly(l, Length(l));
    NthChildDefinedExactly(l, Length(l) + 1);
    NthChildDefinedExactly(l, -1);
  }

  /** Position `i` is the head of the list reached by `i` tail steps. */
  lemma NthChildIsHeadOfTailN(l: Ty, i: int)
    requires l.TList? && 0 <= i <= Length(l)
    ensures NthChildDefined(l, i) && NthChild(l, i) == Head(TailN(l, i))
  {
    NthChildDefinedExactly(l, i);
  }

  // ---------------------------------------------------------------------
  // `contains`, `contains_v`
  // ---------------------------------------------------------------------

  /** `contains<L, T>`: `T` is the head of `L` or is contained in its tail;
      `contains<null_t, T>` is false. The primary template needs `head_t<L>`
      and `tail_t<L>`. Because the search always reaches `type_list<>`,
      whose head is `null_t`, `null_t` is contained in every list. */
  function Contains(l: Ty, x: Ty): (r: bool)
    requires l == NullT || l.TList?
    ensures r <==> l.TList? && (x in l.items || x == NullT)
    decreases Rank(l)
  {
    if l == NullT then false
    else Head(l) == x || Contains(Tail(l), x)
  }

  /** A list contains exactly the types found at some position from 0 to its
      length, the last being `null_t`. */
  lemma ContainsIffSomeChild(l: Ty, x: Ty)
    requires l.TList?
    ensures Contains(l, x) <==>
      exists i :: 0 <= i <= Length(l) && NthChildDefined(l, i) && NthChild(l, i) == x
  {
    if x in l.items {
      var k :| 0 <= k < |l.items| && l.items[k] == x;
      NthChildDefinedExactly(l, k);
    } else if x == NullT {
      NthChildDefinedExactly(l, Length(l));
    }
  }

  /** `null_t` is contained in every list, the empty one included, although
      it is none of its elements. */
  lemma ContainsNullInEveryList(l: Ty)
    requires l.TList?
    ensures Contains(l, NullT)
    ensures Contains(TList([]), NullT) && NullT !in TList([]).items
    ensures !Contains(NullT, NullT)
  {
  }

  // ---------------------------------------------------------------------
  // `append`, `append_t`, `prepend_t`
  // ---------------------------------------------------------------------

  /** `append_t<A, B>`. There is no primary definition, so at least one
      operand must be a list. When both are, `append<type_list<..>,
      type_list<..>>` is more specialised than the (list, type) and
      (type, list) specialisations and merges the two lists. */
  function Append(a: Ty, b: Ty): (r: Ty)
    requires a.TList? || b.TList?
    ensures r.TList? && r.items == Operand(a) + Operand(b)
  {
    if a.TList? && b.TList? then TList(a.items + b.items)
    else if a.TList? then TList(a.items + [b])
    else TList([a] + b.items)
  }

  /** `prepend_t<L, T>` is `append_t<T, L>`. */
  function Prepend(l: Ty, t: Ty): (r: Ty)
    requires l.TList? || t.TList?
    ensures r.TList? && r.items == Operand(t) + Operand(l)
  {
    Append(t, l)
  }

  /** Appending a list to a list adds the lengths, and each position of the
      result is the same position of the first list or, past its end, the
      shifted position of the second. */
  lemma AppendLists(a: Ty, b: Ty, i: int)
    requires a.TList? && b.TList?
    requires 0 <= i <= Length(a) + Length(b)
    ensures Length(Append(a, b)) == Length(a) + Length(b)
    ensures NthChildDefined(Append(a, b), i)
    ensures i < Length(a) ==>
      NthChildDefined(a, i) && NthChild(Append(a, b), i) == NthChild(a, i)
    ensures Length(a) <= i ==>
      NthChildDefined(b, i - Length(a)) &&
      NthChild(Append(a, b), i) == NthChild(b, i - Length(a))
  {
    NthChildDefinedExactly(Append(a, b), i);
    NthChildDefinedExactly(a, i);
    NthChildDefinedExactly(b, i - Length(a));
  }

  /** Appending a list to a list searches both lists. */
  lemma ContainsAppendLists(a: Ty, b: Ty, x: Ty)
    requires a.TList? && b.TList?
    ensures Contains(Append(a, b), x) <==> Contains(a, x) || Contains(b, x)
  {
  }

  /** Appending a bare type to a list puts it last: the old list is the
      prefix, the length grows by one, and the new last position holds it. */
  lemma AppendBareType(l: Ty, t: Ty)
    requires l.TList? && !t.TList?
    ensures Append(l, t).items[..Length(l)] == l.items
    ensures Length(Append(l, t)) == Length(l) + 1
    ensures NthChildDefined(Append(l, t), Length(l))
    ensures NthChild(Append(l, t), Length(l)) == t
  {
    NthChildDefinedExactly(Append(l, t), Length(l));
  }

  /** Prepending a bare type puts it first: it is the head and element 0
      of the result, whose tail is the old list unchanged. */
  lemma PrependBareType(l: Ty, t: Ty)
    requires l.TList? && !t.TList?
    ensures Head(Prepend(l, t)) == t
    ensures Tail(Prepend(l, t)) == l
    ensures Length(Prepend(l, t)) == Length(l) + 1
    ensures NthChildDefined(Prepend(l, t), 0) && NthChild(Prepend(l, t), 0) == t
  {
  }

  /** Prepending a list to a list concatenates them rather than nesting the
      first in the second. */
  lemma PrependList(l: Ty, t: Ty)
    requires l.TList? && t.TList?
    ensures Prepend(l, t) == Append(t, l)
    ensures Prepend(l, t).items == t.items + l.items
    ensures Length(Prepend(l, t)) == Length(t) + Length(l)
  {
  }

  /** A list whose head is not a list is rebuilt from its head and tail by
      `prepend_t`. */
  lemma PrependHeadTail(l: Ty)
    requires l.TList? && l.items != [] && !Head(l).TList?
    ensures Prepend(Tail(l), Head(l)) == l
  {
  }

  /** When the head is itself a list, `prepend_t` of head and tail splices the
      head's elements in instead of nesting the head. */
  lemma PrependHeadTailFlattens(l: Ty)
    requires l.TList? && l.items != [] && Head(l).TList?
    ensures Prepend(Tail(l), Head(l)).items == Head(l).items + Tail(l).items
  {
  }
}

# TypeLists in Dafny

A model of the compile-time type list of `src/main.cpp`: `type_list<...>`,
its end marker `null_t`, and the templates `head_t`, `tail_t`, `is_nil`,
`length` (`length_v`, `size_v`), `nth_child` (`nth_child_t`), `contains`
(`contains_v`), `append` (`append_t`) and `prepend_t`, each defined there by
template specialisation.

A C++ type is a value of the datatype `TypeLists.Ty`: `NullT` (`null_t`),
`Named` (an ordinary type such as `int` or `std::string`, assumed to have no
`head` or `tail` member), `Ptr` (a pointer type, so that `int**` and
`double**` are built from `int` and `double`) and `TList` (`type_list` of a
sequence of types, which may themselves be lists). Type identity
(`std::is_same_v`) is equality of `Ty` values: each `Named` label is taken
to denote one type, distinct from the type of every other label and from
`null_t`, so aliases such as `std::string` and `std::basic_string<char>` are
written with a single label. Each template is a function
with the same recursion and the same base cases as its specialisations; an
instantiation the compiler rejects (a failing `static_assert`, a member type
that does not exist, an `append` with no matching specialisation, the
ambiguous `nth_child<null_t, 0>`) is a call whose `requires` fails. Whether
`nth_child<T, N>` compiles is itself a recursive predicate,
`NthChildDefined`, following the two `static_assert`s and the choice of
specialisation.

Faithful quirks: the empty list's `head` and `tail` are both `null_t`;
`length` instantiates both operands of its `?:`, so the length of the tail of
`type_list<>`, which is `length<null_t>`, is always formed, and `Length`
evaluates it before testing `is_nil`; `nth_child` at the index equal to the
length yields `null_t`; `contains` of `null_t` is true on every list because
the search reaches the empty list's head; `prepend_t` with a list in the
type position concatenates rather than nests.

Two consequences of the code are easy to miss. `contains<L, null_t>` is
true for every list `L`, the empty one included, although `null_t` is none of
its elements: the search always reaches `type_list<>`, whose head is `null_t`
(src/main.cpp:31, 114; `ContainsNullInEveryList`). And `nth_child<null_t, 0>`
does not compile, although `nth_child<null_t, N>` gives `null_t` for every
other `N`, negative ones included: the partial specialisations at
src/main.cpp:90-94 and src/main.cpp:97-101 both match it and neither is more
specialised (`NthChildDefinedExactly`).

The module `Driver` states the queries of the demonstration `main` as lemmas.

## Model

| member | source | states |
|---|---|---|
| `TypeLists.Head` | src/main.cpp:13-38 | `head_t` exists only for lists: the first element, or `null_t` for `type_list<>`; its behaviour is stated by `HeadTailDecompose` and `EmptyListFields` |
| `TypeLists.Tail` | src/main.cpp:13-42 | `tail_t` exists only for lists: the list of the remaining elements, or `null_t` for `type_list<>`; its behaviour is stated by `HeadTailDecompose` and `EmptyListFields` |
| `TypeLists.IsNil` | src/main.cpp:45-54 | `is_nil` is true for `type_list<>` and false for every other type; stated by `IsNilExactlyEmptyList` |
| `TypeLists.NthChildDefined` | src/main.cpp:79-101 | whether `nth_child<T, N>` compiles, following its `static_assert`s and the choice of specialisation; its closed form is `NthChildDefinedExactly` |
| `TypeLists.HeadTailDecompose` | src/main.cpp:13-42 | a non-empty list's tail is a list, and its elements are its head followed by its tail's elements |
| `TypeLists.EmptyListFields` | src/main.cpp:28-34 | `head` and `tail` of `type_list<>` are both `null_t`, which is not the empty list |
| `TypeLists.IsNilExactlyEmptyList` | src/main.cpp:45-68 | `is_nil` holds exactly of `type_list<>`; `null_t` has length 0 but is not nil; a list or `null_t` has length 0 exactly when it is nil or `null_t` |
| `TypeLists.Length` | src/main.cpp:57-76 | defined on lists and `null_t` only; the length of a list is its number of element types, the length of `null_t` is 0 |
| `TypeLists.TailN` | src/main.cpp:40-42 | `k` applications of `tail_t` to a list with at least `k` elements give the list of its elements from position `k` on |
| `TypeLists.LengthCountsTailSteps` | src/main.cpp:57-68 | `length` tail steps reach `type_list<>`, no fewer do, and one more step gives `null_t` |
| `TypeLists.NthChild` | src/main.cpp:79-105 | on a list, the index is between 0 and the length, and the result is the element at that index in construction order, or `null_t` at the index equal to the length; on `null_t` the result is `null_t` |
| `TypeLists.NthChildDefinedExactly` | src/main.cpp:79-101 | `nth_child<T, N>` compiles exactly when `T` is a list and 0 <= N <= length, or `T` is `null_t` and N != 0 |
| `TypeLists.NthChildAtEnds` | src/main.cpp:89-101 | index 0 gives `head`, the index equal to the length gives `null_t`, and the indices -1 and length + 1 do not compile |
| `TypeLists.NthChildIsHeadOfTailN` | src/main.cpp:85-100 | for 0 <= i <= length, element `i` is the head of the list reached by `i` tail steps |
| `TypeLists.Contains` | src/main.cpp:107-126 | defined on lists and `null_t` only; true exactly when the argument is a list and the type is one of its elements or is `null_t`; false on `null_t` |
| `TypeLists.ContainsIffSomeChild` | src/main.cpp:111-122 | a list contains a type exactly when `nth_child` gives that type at some index from 0 to the length |
| `TypeLists.ContainsNullInEveryList` | src/main.cpp:111-122 | every list, the empty one included, contains `null_t`, although `null_t` is not an element of `type_list<>`; `contains<null_t, null_t>` is false |
| `TypeLists.Append` | src/main.cpp:128-157 | defined only when at least one operand is a list; the result is a list whose elements are the first operand's followed by the second's, a bare type counting as itself |
| `TypeLists.Prepend` | src/main.cpp:159-161 | defined only when at least one operand is a list; the result's elements are the type operand's followed by the list operand's |
| `TypeLists.AppendLists` | src/main.cpp:142-146 | for two lists the lengths add, and element `i` is the first list's element `i` below its length and the second list's element `i - length` from there on, up to and including the final `null_t` |
| `TypeLists.ContainsAppendLists` | src/main.cpp:142-146 | the merge of two lists contains a type exactly when one of the two lists does |
| `TypeLists.AppendBareType` | src/main.cpp:132-137 | appending a bare type to a list keeps the list as prefix, adds one to the length, and puts the type at the index equal to the old length |
| `TypeLists.PrependBareType` | src/main.cpp:148-161 | prepending a bare type to a list makes it the head and element 0, keeps the old list as the tail, and adds one to the length |
| `TypeLists.PrependList` | src/main.cpp:142-161 | `prepend_t<L, T>` is `append_t<T, L>`; with a list `T` its elements come first, followed by `L`'s, and the lengths add |
| `TypeLists.PrependHeadTail` | src/main.cpp:148-161 | a non-empty list whose head is not a list is rebuilt by prepending its head to its tail |
| `TypeLists.PrependHeadTailFlattens` | src/main.cpp:142-161 | when the head is a list, prepending it to the tail splices its elements in instead of nesting it |
| `Driver.EmptySize` | src/main.cpp:171 | `size_v<type_list<>>` is 0 |
| `Driver.AppendScenario` | src/main.cpp:165-172 | `append_t<type_list<float, float, double, int>, type_list<std::string, char, double**>>` has size 7 and its element at `size_v - 1` is `double**` |
| `Driver.PrependScenario` | src/main.cpp:166-173 | `prepend_t<type_list<std::string, char, double**>, int**>` has size 4 and element 0 `int**` |
| `Driver.ContainsScenario` | src/main.cpp:175-176 | `int**` is not contained in the four-type list and is contained in the prepended list |
| `Driver.NestedHeadExample` | src/main.cpp:142-161 | prepending the head of `type_list<type_list<int>>` to its tail gives `type_list<int>`, which differs from the original list |

## Left out

- `main`'s output through `std::cout` and the names printed by `typeid(...).name()`, which are implementation-defined (src/main.cpp:171-176, 186-190): I/O.
- The runtime members `value` and `next` of a non-empty `type_list` (src/main.cpp:23-24) and the driver's field-by-field assignments, including a pointer to the first field (src/main.cpp:178-190): C++ object storage and pointer aliasing. The nesting depth of `next` members is the number of tail steps, which `LengthCountsTailSteps` relates to `Length`.
- The member aliases `type`, `value_type` and `next_type` (src/main.cpp:18-21, 33): `type` names the list itself and the other two are `head` and `tail`, so they add no operation.
- The variable templates `is_nil_v`, `length_v`, `size_v`, `nth_child_t`, `contains_v`, `append_t`: each is the same value as the template it names, so `IsNil`, `Length`, `NthChild`, `Contains` and `Append` stand for both.
- The C++ `int` width of `length`'s value and of the index `N`: lengths of type lists are far below 2^31, so no wrap-around is modelled.
- The mechanics of overload resolution (partial ordering of specialisations) and the text of `static_assert` messages: only which specialisation applies, or that none does, is modelled.
- User types that declare their own `head` or `tail` members: `Named` types have none, so `head_t`, `tail_t`, `length`, `contains` and `nth_child` reject them.

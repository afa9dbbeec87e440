# Recursive list minimum

This project models `Midterm::minimum()` from `Midterm/Midterm/Source.cpp`.
The public overload throws `std::length_error("The List is Empty")` when the list is empty.
Otherwise it hands the first element, as a running minimum, to a private tail-recursive overload.
That overload walks the iterator up to the end sentinel `_tail`.
At each step it replaces the running minimum only when the current element is strictly smaller.

The model is functional and has two modules:

- `Results` (`results.dfy`): a `Result` type standing in for the C++ exception.
  `Failure(LengthError(message))` stands for the thrown `length_error`.
- `Midterm` (`midterm.dfy`): the two overloads as pure functions, plus the lemmas about them.
  - `Minimum` models the public overload.
  - `MinFrom` models the private recursive overload.

Modelling choices:

- The list is an immutable `seq<T>`.
- An iterator is an index `i` with `0 <= i <= |s|`. `begin()` is `0`, `++position` is `i + 1` and `*position` is `s[i]`.
- The sentinel `_tail` is assumed to be the past-the-end position `|s|`. The file never defines `_tail`. If it were the last node instead, the test on line 16 would skip the last element.
- `Data_t` is a type parameter `T`. Its `operator<` is the strict weak order "`key(x) < key(y)`" for an integer-valued `key`. Distinct elements can therefore tie, and the model shows which of two tied elements the strict `<` on line 18 keeps: the earlier one.
- The public overload starts the helper at `begin()`, not at the second element. The first element is compared with itself, which changes nothing. The model keeps this (`MinFrom(s[0], s, key, 0)`).
- Termination of the recursion is the `decreases |s| - i` of `MinFrom`: each call advances the position by one toward the sentinel.
- The traversal is read-only. This holds by construction, since the list is an immutable value.

## Model

| member | source | states |
|---|---|---|
| Midterm.Minimum | Midterm/Midterm/Source.cpp:7-11 | Fails with `LengthError("The List is Empty")` exactly when the list is empty. Otherwise it succeeds with an element of the list whose key is no greater than that of any element. |
| Midterm.MinFrom | Midterm/Midterm/Source.cpp:14-21 | At the sentinel it returns the accumulator unchanged. The result never has a larger key than the accumulator it was called with. The result is a lower bound of every element from the current position on. The result is either the accumulator or one of those elements. |
| Midterm.MinFromKeepsLeastAccumulator | Midterm/Midterm/Source.cpp:16-20 | If no remaining element is strictly smaller than the accumulator, the helper returns the accumulator itself. An element that merely ties never replaces it. |
| Midterm.MinFromReturnsFirstLeast | Midterm/Midterm/Source.cpp:14-21 | If some remaining element is strictly smaller than the accumulator, the helper returns the first remaining element of least key. |
| Midterm.MinimumIsFirstLeast | Midterm/Midterm/Source.cpp:7-21 | `minimum()` succeeds with `m` if and only if the list is non-empty and `m` sits at the first position of least key. Both directions are proved. |
| Midterm.MinimumOfIntegers | Midterm/Midterm/Source.cpp:7-21 | For a non-empty list of integers compared by value, `minimum()` returns the same value as an independent head-recursive reference minimum `Least`. |

## Left out

- `main` (lines 25-28) only writes a greeting to the console. It has no logic.
- The list class itself is not part of this model: its nodes, its iterator, `empty()`, `begin()` and `_tail`. The file uses these names without defining them. They are abstracted as a sequence and an index.
- The C++ exception machinery is left out. The `length_error` is a `Failure` value instead.
- `Data_t`'s `operator<` is assumed to be a strict weak order induced by an integer key. An `operator<` that is not a strict weak order is not covered.
- The rational-number library and its dynamic array appear elsewhere in the repository, but they are not part of this model.

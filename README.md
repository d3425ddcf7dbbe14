# if_empty — a Dafny model

The `if_empty` crate offers one operation: `value.if_empty(fallback)` returns
`fallback` when `value` is empty by its type's own `is_empty`, and returns
`value` otherwise. The crate states it as two traits. `IfEmpty` is for owned
values. `IfEmptyBorrowed` is for references that share one lifetime. It
implements them for `String` and `str`. Its tests add a hand-written
implementation for a type `Fake` whose emptiness is a boolean field. A derive
macro emits the same branch for any user type that defines `is_empty`.

The model is pure, like the crate:

- `contract.dfy` (module `Contract`) holds the trait contract as one generic
  function. Its parameter `isEmpty: T -> bool` stands for the type's
  `is_empty`. This is also exactly the body the derive macro generates. The
  module also proves what follows from the contract: the result is one of the
  two arguments, a non-empty value ignores the fallback, and re-application
  and nesting laws. It also proves laws of repeated owned calls, which are
  possible because `if_empty` returns `Self`, although the crate itself calls
  `if_empty` only once at a time: a chain returns the first non-empty
  candidate, or the last one when all are empty.
- `text.dfy` (module `Text`) holds the `String` and `str` implementations over
  `string`, where empty means length 0. It proves that each is an instance of
  the generic contract, that the owned and borrowed versions agree, and the
  crate's test scenarios.
- `custom.dfy` (module `Custom`) holds the test type `Fake`. Its `if_empty`
  is written with the test's own branch order (`if self.value { self } else
  { value }`). The module proves that it is the generic contract with
  `!value` as the emptiness predicate.

## Model

| member | source | states |
|---|---|---|
| `Contract.IfEmptyBy` | derive_macro/src/lib.rs:51-58 | for any emptiness predicate, the result is the fallback when the value is empty and the value otherwise, so it is always one of the two arguments; it is empty exactly when both the value and the fallback are empty |
| `Contract.Selects` | src/lib.rs:7-13 | the fallback is returned exactly when the value's predicate holds, otherwise the value itself |
| `Contract.FallbackIgnored` | src/lib.rs:26-32 | a non-empty value is returned unchanged, and the result does not depend on which fallback was offered |
| `Contract.Reapplied` | src/lib.rs:26-32 | applying the operation to a non-empty result with any second fallback returns that result; an empty result is replaced by the second fallback |
| `Contract.Associative` | src/lib.rs:7-9 | derived law of repeated owned calls (possible because the trait returns `Self`): `a.if_empty(b).if_empty(c)` equals `a.if_empty(b.if_empty(c))` |
| `Contract.Chain` | src/lib.rs:7-9 | derived from the trait returning `Self` (the crate itself never chains calls): a chain of owned calls returns the value or one of the fallbacks, and its result is empty exactly when every candidate is empty |
| `Contract.ChainKeepsNonEmpty` | src/lib.rs:7-9 | derived law of repeated owned calls: once the chain holds a non-empty value, later fallbacks never replace it |
| `Contract.ChainFirstNonEmpty` | src/lib.rs:7-9 | derived law of repeated owned calls: a chain returns the first non-empty candidate, in call order |
| `Contract.ChainAllEmpty` | src/lib.rs:7-9 | derived law of repeated owned calls: when every candidate is empty, a chain returns the last one offered |
| `Text.IsEmpty` | src/lib.rs:17 | Rust's `is_empty` on `String` and `str`: true exactly for the text of length 0, the empty sequence |
| `Text.IfEmptyString` | src/lib.rs:25-33 | the owned `String` result is the fallback when the value has length 0 and the value otherwise, and it has length 0 exactly when both have length 0 |
| `Text.IfEmptyStr` | src/lib.rs:15-23 | the borrowed `str` result is the fallback slice when the slice has length 0 and the slice otherwise, and it has length 0 exactly when both have length 0 |
| `Text.StringFallbackWhenEmpty` | src/lib.rs:40-46 | an empty owned value yields the fallback exactly, so a non-empty fallback gives a non-empty result |
| `Text.StringKeepsNonEmpty` | src/lib.rs:48-50 | a non-empty owned value comes back unchanged whatever the fallback |
| `Text.StrSelects` | src/lib.rs:16-22 | the borrowed version returns the fallback for an empty slice and the slice itself otherwise |
| `Text.OwnedAndBorrowedAgree` | src/lib.rs:15-33 | the owned and borrowed versions give the same contents for the same contents |
| `Text.TextIsContractInstance` | src/lib.rs:11-33 | both text implementations are the generic contract with length 0 as `is_empty` |
| `Text.StringReapplied` | src/lib.rs:26-32 | calling the owned version again on a non-empty result returns that result |
| `Text.TextScenarios` | src/lib.rs:39-64 | `""` with fallback `"text"` gives `"text"`, which is non-empty; `"not empty"` keeps itself; the same holds for the borrowed version |
| `Custom.FakeIsEmpty` | src/lib.rs:73 | the emptiness the test's impl tests: a `Fake` is empty exactly when its `value` is false, i.e. it is `Fake{false}` |
| `Custom.FakeIfEmpty` | src/lib.rs:71-79 | the `Fake` result is one of the two arguments, and its `value` is true exactly when either argument's is |
| `Custom.FakeIsContractInstance` | src/lib.rs:71-79 | the test's impl is the generic contract with `!value` as emptiness, so it returns the fallback exactly when `value` is false |
| `Custom.CustomScenarios` | src/lib.rs:81-85 | `Fake{false}` with fallback `Fake{true}` yields `Fake{true}`; `Fake{true}` with fallback `Fake{false}` keeps `Fake{true}` |

## Left out

- The derive macro's token handling (`parse_macro_input!` and `quote!` in derive_macro/src/lib.rs) is compile-time code generation over external crates. Only the body it emits is modelled, as `Contract.IfEmptyBy`. A type without `is_empty` fails to build in Rust; here the predicate is a required argument, so that case cannot arise.
- Ownership moves and lifetimes are not modelled. `self` taken by value and the shared `'a` lifetime of the borrowed trait have no runtime behaviour. For the borrowed version, "returns one of the two references" is stated as equality of contents, not as identity of the reference.
- The example program examples/derive_macro.rs is not modelled. Its `Clone` impl is boilerplate and its `print!` is output, and it adds no logic beyond the derived body.
- Text is a sequence of characters. Rust's UTF-8 byte representation does not matter here, because both length 0 in bytes and length 0 in characters mean the empty string.

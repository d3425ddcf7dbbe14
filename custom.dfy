/**
 * The hand-written implementation in the crate's `custom` test: a type
 * whose own idea of "empty" is not a length.  `Fake { value: false }`
 * counts as empty, `Fake { value: true }` does not.
 */
module Custom {
  import Contract

  datatype Fake = Fake(value: bool)

  /** Emptiness of a Fake, as its `if_empty` implementation decides it. */
  predicate FakeIsEmpty(f: Fake): (b: bool)
    ensures b <==> f == Fake(false)
  {
    !f.value
  }

  /** `Fake::if_empty(self, value)`, written with the test's branch order. */
  function FakeIfEmpty(self: Fake, value: Fake): (r: Fake)
    ensures r == self || r == value
    ensures r.value == (self.value || value.value)
  {
    if self.value then self else value
  }

  /** The test's impl is the generic contract with `!value` as the emptiness predicate. */
  lemma FakeIsContractInstance(self: Fake, value: Fake)
    ensures FakeIfEmpty(self, value) == Contract.IfEmptyBy(self, value, FakeIsEmpty)
    ensures FakeIsEmpty(self) ==> FakeIfEmpty(self, value) == value
    ensures !FakeIsEmpty(self) ==> FakeIfEmpty(self, value) == self
  {
  }

  /** The two assertions of the `custom` test. */
  lemma CustomScenarios()
    ensures FakeIfEmpty(Fake(false), Fake(true)).value
    ensures FakeIfEmpty(Fake(false), Fake(true)) == Fake(true)
    ensures FakeIfEmpty(Fake(true), Fake(false)).value
    ensures FakeIfEmpty(Fake(true), Fake(false)) == Fake(true)
  {
  }
}

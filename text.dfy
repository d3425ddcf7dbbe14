/**
 * The two text implementations of the crate: `impl IfEmpty for String`
 * (owned) and `impl IfEmptyBorrowed for str` (borrowed).  Both are text, so
 * both are `string` here, and a text is empty when its length is 0, which
 * is what Rust's `is_empty` reports for either type.
 */
module Text {
  import Contract

  /** Rust's `is_empty` on `String` and on `str`. */
  predicate IsEmpty(s: string): (b: bool)
    ensures b <==> s == []
  {
    |s| == 0
  }

  /** `String::if_empty(self, input)`: the owned value, or the owned fallback. */
  function IfEmptyString(s: string, input: string): (r: string)
    ensures r == s || r == input
    ensures |s| == 0 ==> r == input
    ensures |s| > 0 ==> r == s
    ensures |r| == 0 <==> |s| == 0 && |input| == 0
  {
    if IsEmpty(s) then input else s
  }

  /** `str::if_empty(&self, input)`: one of the two borrowed slices. */
  function IfEmptyStr(s: string, input: string): (r: string)
    ensures r == s || r == input
    ensures |s| == 0 ==> r == input
    ensures |s| > 0 ==> r == s
    ensures |r| == 0 <==> |s| == 0 && |input| == 0
  {
    if IsEmpty(s) then input else s
  }

  /** An empty owned value is replaced by the fallback, exactly. */
  lemma StringFallbackWhenEmpty(s: string, input: string)
    requires |s| == 0
    ensures IfEmptyString(s, input) == input
    ensures |input| > 0 ==> |IfEmptyString(s, input)| > 0
  {
  }

  /** A non-empty owned value comes back unchanged, whatever the fallback. */
  lemma StringKeepsNonEmpty(s: string, input: string, other: string)
    requires |s| > 0
    ensures IfEmptyString(s, input) == s
    ensures IfEmptyString(s, input) == IfEmptyString(s, other)
  {
  }

  /** The borrowed version returns the fallback for an empty slice, else the slice. */
  lemma StrSelects(s: string, input: string)
    ensures |s| == 0 ==> IfEmptyStr(s, input) == input
    ensures |s| > 0 ==> IfEmptyStr(s, input) == s
  {
  }

  /** Owned and borrowed versions give the same contents for the same contents. */
  lemma OwnedAndBorrowedAgree(s: string, input: string)
    ensures IfEmptyString(s, input) == IfEmptyStr(s, input)
  {
  }

  /** Both text implementations are the generic contract with `is_empty` as the predicate. */
  lemma TextIsContractInstance(s: string, input: string)
    ensures IfEmptyString(s, input) == Contract.IfEmptyBy(s, input, IsEmpty)
    ensures IfEmptyStr(s, input) == Contract.IfEmptyBy(s, input, IsEmpty)
  {
  }

  /** Calling the owned version again on its non-empty result changes nothing. */
  lemma StringReapplied(s: string, f: string, g: string)
    requires |IfEmptyString(s, f)| > 0
    ensures IfEmptyString(IfEmptyString(s, f), g) == IfEmptyString(s, f)
  {
  }

  /** The scenarios of the crate's `string` and `str` tests. */
  lemma TextScenarios()
    ensures IfEmptyString("", "text") == "text"
    ensures |IfEmptyString("", "text")| > 0
    ensures IfEmptyString("not empty", "should not be returned") == "not empty"
    ensures IfEmptyStr("", "text") == "text"
    ensures |IfEmptyStr("", "text")| > 0
    ensures IfEmptyStr("not empty", "should not be returned") == "not empty"
  {
  }
}

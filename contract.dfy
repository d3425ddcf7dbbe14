/**
 * The "fallback when empty" contract of the if_empty crate, for any type
 * that has its own notion of emptiness.
 *
 * The crate states the contract as the trait `IfEmpty` (owned values:
 * `if_empty(self, val: Self) -> Self`) and `IfEmptyBorrowed` (references
 * with one shared lifetime).  Ownership and lifetimes have no runtime
 * behaviour, so both become a pure function over values here.  The type's
 * emptiness predicate (its `is_empty`) is passed as a total function, which
 * is also what the derive macro relies on: the body it emits for a user
 * type calls that type's `is_empty` and branches exactly like IfEmptyBy.
 */
module Contract {

  /** `v.if_empty(fallback)` for a type whose `is_empty` is `isEmpty`. */
  function IfEmptyBy<T>(v: T, fallback: T, isEmpty: T -> bool): (r: T)
    // the result is one of the two arguments, never a new value
    ensures r == v || r == fallback
    // the value's own predicate alone decides which argument comes back
    ensures isEmpty(v) ==> r == fallback
    ensures !isEmpty(v) ==> r == v
    // the result is empty only when nothing non-empty was offered
    ensures isEmpty(r) <==> isEmpty(v) && isEmpty(fallback)
  {
    if isEmpty(v) then fallback else v
  }

  /** Which argument is returned is decided by the value's predicate alone. */
  lemma Selects<T>(v: T, fallback: T, isEmpty: T -> bool)
    ensures isEmpty(v) ==> IfEmptyBy(v, fallback, isEmpty) == fallback
    ensures !isEmpty(v) ==> IfEmptyBy(v, fallback, isEmpty) == v
  {
  }

  /** A non-empty value is returned unchanged whatever fallback is offered. */
  lemma FallbackIgnored<T>(v: T, f: T, g: T, isEmpty: T -> bool)
    requires !isEmpty(v)
    ensures IfEmptyBy(v, f, isEmpty) == v
    ensures IfEmptyBy(v, f, isEmpty) == IfEmptyBy(v, g, isEmpty)
  {
  }

  /**
   * Applying the operation to its own result: a non-empty first result is
   * kept by any second fallback g; an empty first result is replaced by g.
   */
  lemma Reapplied<T>(v: T, f: T, g: T, isEmpty: T -> bool)
    ensures !isEmpty(IfEmptyBy(v, f, isEmpty)) ==>
              IfEmptyBy(IfEmptyBy(v, f, isEmpty), g, isEmpty) == IfEmptyBy(v, f, isEmpty)
    ensures isEmpty(IfEmptyBy(v, f, isEmpty)) ==>
              IfEmptyBy(IfEmptyBy(v, f, isEmpty), g, isEmpty) == g
  {
  }

  /** Nesting a fallback inside the fallback is the same as chaining the calls. */
  lemma Associative<T>(a: T, b: T, c: T, isEmpty: T -> bool)
    ensures IfEmptyBy(IfEmptyBy(a, b, isEmpty), c, isEmpty)
         == IfEmptyBy(a, IfEmptyBy(b, c, isEmpty), isEmpty)
  {
  }

  /**
   * Because the owned call returns `Self`, calls chain:
   * `v.if_empty(fallbacks[0]).if_empty(fallbacks[1])...`.
   */
  function Chain<T>(v: T, fallbacks: seq<T>, isEmpty: T -> bool): (r: T)
    ensures r == v || exists j :: 0 <= j < |fallbacks| && r == fallbacks[j]
    ensures isEmpty(r) <==>
              isEmpty(v) && forall j :: 0 <= j < |fallbacks| ==> isEmpty(fallbacks[j])
    decreases |fallbacks|
  {
    if |fallbacks| == 0 then v
    else Chain(IfEmptyBy(v, fallbacks[0], isEmpty), fallbacks[1..], isEmpty)
  }

  /** Once the chain holds a non-empty value, no later fallback replaces it. */
  lemma {:induction false} ChainKeepsNonEmpty<T>(v: T, fallbacks: seq<T>, isEmpty: T -> bool)
    requires !isEmpty(v)
    ensures Chain(v, fallbacks, isEmpty) == v
    decreases |fallbacks|
  {
    if |fallbacks| > 0 {
      ChainKeepsNonEmpty(v, fallbacks[1..], isEmpty);
    }
  }

  /**
   * A chain returns the first non-empty candidate, reading the value and then
   * the fallbacks in call order.
   */
  lemma {:induction false} ChainFirstNonEmpty<T>(v: T, fallbacks: seq<T>, isEmpty: T -> bool, i: nat)
    requires i <= |fallbacks|
    requires !isEmpty(([v] + fallbacks)[i])
    requires forall j :: 0 <= j < i ==> isEmpty(([v] + fallbacks)[j])
    ensures Chain(v, fallbacks, isEmpty) == ([v] + fallbacks)[i]
    decreases i
  {
    if i == 0 {
      ChainKeepsNonEmpty(v, fallbacks, isEmpty);
    } else {
      assert isEmpty(([v] + fallbacks)[0]);
      var rest := fallbacks[1..];
      assert [fallbacks[0]] + rest == fallbacks;
      forall j | 0 <= j < i - 1
        ensures isEmpty(([fallbacks[0]] + rest)[j])
      {
        assert ([v] + fallbacks)[j + 1] == fallbacks[j];
      }
      assert ([v] + fallbacks)[i] == fallbacks[i - 1];
      ChainFirstNonEmpty(fallbacks[0], rest, isEmpty, i - 1);
    }
  }

  /** When every candidate is empty the chain returns the last one offered. */
  lemma {:induction false} ChainAllEmpty<T>(v: T, fallbacks: seq<T>, isEmpty: T -> bool)
    requires isEmpty(v)
    requires forall j :: 0 <= j < |fallbacks| ==> isEmpty(fallbacks[j])
    ensures Chain(v, fallbacks, isEmpty) == if |fallbacks| == 0 then v else fallbacks[|fallbacks| - 1]
    decreases |fallbacks|
  {
    if |fallbacks| > 0 {
      ChainAllEmpty(fallbacks[0], fallbacks[1..], isEmpty);
    }
  }
}

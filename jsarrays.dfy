/** JavaScript array assignment `a[k] = v`, which pads the array with holes when `k`
    lies past its end. The layouts that fill a result out of order (clockwise
    rotation, the flat transpose, the generic algorithms writing through `set`) are
    modelled on rows of optional values, `None` standing for a hole. */
module JsArrays {
  import opened Results

  /** `a` after `a[k] = v`. */
  function Put<T>(a: seq<Option<T>>, k: nat, v: T): (r: seq<Option<T>>)
    ensures |r| == if k < |a| then |a| else k + 1
    ensures r[k] == Some(v)
    ensures forall t :: 0 <= t < |r| && t != k ==> r[t] == if t < |a| then a[t] else None
  {
    if k < |a| then a[k := Some(v)] else a + seq(k - |a|, _ => None) + [Some(v)]
  }

  /** `a` has no holes. */
  predicate Dense<T>(a: seq<Option<T>>) {
    forall t :: 0 <= t < |a| ==> a[t].Some?
  }

  /** The elements of a hole-free array. */
  function Elements<T>(a: seq<Option<T>>): (r: seq<T>)
    requires Dense(a)
    ensures |r| == |a| && forall t :: 0 <= t < |a| ==> a[t] == Some(r[t])
  {
    seq(|a|, t requires 0 <= t < |a| => a[t].value)
  }
}

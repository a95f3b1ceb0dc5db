/** Small shared vocabulary: an optional value and the first-match search that
    JavaScript's `Array.prototype.find` and `indexOf` perform. */
module Base {

  datatype Option<+T> = None | Some(value: T)

  /** Index of the first element of `s` at or after `i` satisfying `p`,
      scanning from the left; `None` when no element does. `find` returns the
      element itself; callers index `s` with the result. */
  function FindFirst<T>(s: seq<T>, p: T -> bool, i: nat := 0): (r: Option<nat>)
    requires i <= |s|
    ensures r.Some? ==> i <= r.value < |s| && p(s[r.value])
    ensures r.Some? ==> forall j :: i <= j < r.value ==> !p(s[j])
    ensures r.None? ==> forall j :: i <= j < |s| ==> !p(s[j])
    decreases |s| - i
  {
    if i == |s| then None
    else if p(s[i]) then Some(i)
    else FindFirst(s, p, i + 1)
  }

  /** The first match is determined by the two properties FindFirst promises:
      any index that matches and has no match before it is the answer. */
  lemma FindFirstUnique<T>(s: seq<T>, p: T -> bool, k: nat)
    requires k < |s| && p(s[k])
    requires forall j :: 0 <= j < k ==> !p(s[j])
    ensures FindFirst(s, p) == Some(k)
  {
  }

  /** Elements before the searched part that cannot match shift the answer
      and change nothing else. */
  lemma FindFirstSkip<T>(prefix: seq<T>, s: seq<T>, p: T -> bool)
    requires forall j :: 0 <= j < |prefix| ==> !p(prefix[j])
    ensures FindFirst(prefix + s, p) ==
            match FindFirst(s, p)
            case None => None
            case Some(k) => Some(|prefix| + k)
  {
    var u := prefix + s;
    match FindFirst(s, p)
    case None =>
      forall j | 0 <= j < |u| ensures !p(u[j]) {
        if j >= |prefix| { assert u[j] == s[j - |prefix|]; }
      }
    case Some(k) =>
      assert u[|prefix| + k] == s[k];
      forall j | 0 <= j < |prefix| + k ensures !p(u[j]) {
        if j >= |prefix| { assert u[j] == s[j - |prefix|]; }
      }
      FindFirstUnique(u, p, |prefix| + k);
  }
}

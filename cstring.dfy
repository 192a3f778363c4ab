/** The order the DNA programs sort by: `strcmp` on C strings, compared
    character by character, a proper prefix first.  Strings are sequences of
    characters without the terminating NUL. */
module CString {
  import opened Order

  /** The sign of `strcmp(a, b)`: negative, zero or positive as `a` comes
      before, equals or comes after `b`. */
  function StrCmp(a: string, b: string): (r: int)
    ensures -1 <= r <= 1
    decreases |a|
  {
    if a == [] && b == [] then 0
    else if a == [] then -1
    else if b == [] then 1
    else if a[0] < b[0] then -1
    else if a[0] > b[0] then 1
    else StrCmp(a[1..], b[1..])
  }

  /** The comparison of the DNA sorts: `strcmp(a, b) <= 0`. */
  function StrLe(a: string, b: string): bool {
    StrCmp(a, b) <= 0
  }

  /** `strcmp` returns zero exactly on equal strings. */
  lemma {:induction false} StrCmpZero(a: string, b: string)
    ensures StrCmp(a, b) == 0 <==> a == b
    decreases |a|
  {
    if a != [] && b != [] && a[0] == b[0] {
      StrCmpZero(a[1..], b[1..]);
      assert a == [a[0]] + a[1..] && b == [b[0]] + b[1..];
    }
  }

  /** Swapping the arguments flips the sign. */
  lemma {:induction false} StrCmpFlip(a: string, b: string)
    ensures StrCmp(b, a) == -StrCmp(a, b)
    decreases |a|
  {
    if a != [] && b != [] && a[0] == b[0] {
      StrCmpFlip(a[1..], b[1..]);
    }
  }

  /** Strings that are in order pairwise are in order end to end. */
  lemma {:induction false} StrCmpTrans(a: string, b: string, c: string)
    requires StrCmp(a, b) <= 0 && StrCmp(b, c) <= 0
    ensures StrCmp(a, c) <= 0
    decreases |a|
  {
    if a != [] && b != [] && c != [] && a[0] == b[0] == c[0] {
      StrCmpTrans(a[1..], b[1..], c[1..]);
    }
  }

  /** `strcmp(a, b) <= 0` is a total order on strings, so the generic sorts
      apply to the DNA programs. */
  lemma StrLeIsTotalOrder()
    ensures TotalOrder(StrLe)
  {
    forall x: string, y: string, z: string ensures OrderLaws(StrLe, x, y, z) {
      StrCmpZero(x, y);
      StrCmpFlip(x, y);
      if StrLe(x, y) && StrLe(y, z) {
        StrCmpTrans(x, y, z);
      }
    }
  }
}

/** The comparison operators every container gets for free: `!=` from `==`,
    and `>`, `<=`, `>=` from `<`.  Each takes the primitive operator it is
    written in terms of. */
module Utility {
  import opened Algorithm

  /** `operator!=`: `!(lhs == rhs)`. */
  function NotEqual<T>(eq: (T, T) -> bool, lhs: T, rhs: T): (r: bool)
    ensures r != eq(lhs, rhs)
  {
    !eq(lhs, rhs)
  }

  /** `operator>`: `rhs < lhs`, so `>` is `<` with the operands exchanged. */
  function Greater<T>(less: (T, T) -> bool, lhs: T, rhs: T): (r: bool)
    ensures r == less(rhs, lhs)
  {
    less(rhs, lhs)
  }

  /** `operator<=`: `!(rhs < lhs)`, the complement of `>`. */
  function LessEqual<T>(less: (T, T) -> bool, lhs: T, rhs: T): (r: bool)
    ensures r <==> !Greater(less, lhs, rhs)
  {
    !less(rhs, lhs)
  }

  /** `operator>=`: `!(lhs < rhs)`, which is `<=` with the operands
      exchanged. */
  function GreaterEqual<T>(less: (T, T) -> bool, lhs: T, rhs: T): (r: bool)
    ensures r <==> LessEqual(less, rhs, lhs)
  {
    !less(lhs, rhs)
  }

  /** Over a strict total order the derived operators mean what their names
      say, and exactly one of `<`, `==`, `>` holds. */
  lemma DerivedOperators<T(!new)>(less: (T, T) -> bool, a: T, b: T)
    requires StrictTotalOrder(less)
    ensures NotEqual((x: T, y: T) => x == y, a, b) <==> a != b
    ensures LessEqual(less, a, b) <==> less(a, b) || a == b
    ensures GreaterEqual(less, a, b) <==> Greater(less, a, b) || a == b
    ensures Greater(less, a, b) <==> less(b, a)
    ensures (less(a, b) && !Greater(less, a, b) && a != b)
            || (!less(a, b) && !Greater(less, a, b) && a == b)
            || (!less(a, b) && Greater(less, a, b) && a != b)
  {
  }
}

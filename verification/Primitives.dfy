// The scalar operations a forwarding function may stand for (src/DavC310TargetRecipe.cpp:1995-2000).
module Primitives {
  datatype Option<+T> = None | Some(value: T)

  datatype Kind = Exp | Divide | Rsqrt

  // Number of parameters (src/DavC310TargetRecipe.cpp:2107-2108, 2507-2508).
  function Arity(kind: Kind): nat {
    if kind.Divide? then 2 else 1
  }
}

/** Buffer arithmetic shared by the stream models. */
module Sizes {

  // std::min
  function Min(a: nat, b: nat): nat { if a <= b then a else b }
}

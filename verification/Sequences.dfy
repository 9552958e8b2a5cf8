/** Lists as values. */
module Sequences {

  /** A list with the entry at one index taken out. */
  function Without<T>(s: seq<T>, k: nat): seq<T>
    requires k < |s|
  {
    s[..k] + s[k + 1..]
  }
}

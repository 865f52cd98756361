module Options {
  datatype Option<T> = None | Some(value: T)
}

module Sequences {
  function Elems<T>(q: seq<T>): set<T> { set x | x in q }
}

/** Both the configuration files and the scanned sources mark symbols like this. */
module SymbolPrefix {
  const CONFIG := "CONFIG_"
}

/** The world state a chaincode transaction reaches through its stub: string
    values by string key. */
module Ledger {
  import opened Wrappers

  /** `getStringState`: the value stored under `key`, or `None` (a `null`
      reference) when nothing is stored there. */
  function GetStringState(state: map<string, string>, key: string): Option<string>
  {
    if key in state then Some(state[key]) else None
  }

  /** The stub of one transaction. `state` is what a read sees; `puts` records
      every write in the order it was issued. */
  class Stub {
    var state: map<string, string>
    ghost var puts: seq<(string, string)>

    constructor (initial: map<string, string>)
      ensures state == initial && puts == []
    {
      state := initial;
      puts := [];
    }

    /** `putStringState`: the last write to a key wins. */
    method PutStringState(key: string, value: string)
      modifies this
      ensures state == old(state)[key := value]
      ensures puts == old(puts) + [(key, value)]
    {
      state := state[key := value];
      puts := puts + [(key, value)];
    }
  }
}

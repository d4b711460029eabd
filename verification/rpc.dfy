/** The already-parsed JSON-RPC envelopes the tally loop receives. JSON
    parsing itself is outside the model: an envelope that does not parse
    is `NotRpc`, and a `result` is given in the shape it has. */
module Rpc {
  import opened Wrappers

  /** `StateStoreRpc`: the block and the changed storage items, each a
      list whose first string is the key and second the value. */
  datatype StateStoreRpc = StateStoreRpc(block: string, changes: seq<seq<string>>)
  {
    /** `key_of`: `None` where indexing would panic. */
    function KeyOf(i: nat): (r: Option<string>)
      ensures r.Some? <==> i < |changes| && |changes[i]| >= 1
      ensures r.Some? ==> r.value == changes[i][0]
    {
      if i < |changes| && |changes[i]| >= 1 then Some(changes[i][0]) else None
    }

    /** `value_of`: `None` where indexing would panic. */
    function ValueOf(i: nat): (r: Option<string>)
      ensures r.Some? <==> i < |changes| && |changes[i]| >= 2
      ensures r.Some? ==> r.value == changes[i][1]
    {
      if i < |changes| && |changes[i]| >= 2 then Some(changes[i][1]) else None
    }

    /** `item_of`: the key and the value of item `i`, defined exactly when
        item `i` exists and holds at least two strings. */
    function ItemOf(i: nat): (r: Option<(string, string)>)
      ensures r.Some? <==> i < |changes| && |changes[i]| >= 2
      ensures r.Some? ==> r.value == (changes[i][0], changes[i][1])
    {
      match (KeyOf(i), ValueOf(i))
      case (Some(k), Some(v)) => Some((k, v))
      case _ => None
    }

    /** `item_of` is defined exactly where `value_of` is, and there `key_of`
        is defined too and the item is their pair. */
    lemma ItemOfParts(i: nat)
      ensures ItemOf(i).Some? <==> ValueOf(i).Some?
      ensures ValueOf(i).Some? ==> KeyOf(i).Some? && ItemOf(i) == Some((KeyOf(i).value, ValueOf(i).value))
    {
    }
  }

  /** The `result` of an envelope: storage changes, a string, or any other
      JSON value (which `into_inner` fails on for both methods). */
  datatype RpcValue = Changes(rpc: StateStoreRpc) | Text(text: string) | OtherValue

  /** `RpcResult`: the notification's method name and its `params.result`. */
  datatype RpcResult = RpcResult(name: string, result: RpcValue)

  /** One message off the socket: an envelope, or text that is not one. */
  datatype Message = Envelope(rpc: RpcResult) | NotRpc

  const STATE_STORAGE: string := "state_storage"
  const GRANDPA_JUSTIFICATIONS: string := "grandpa_justifications"
}

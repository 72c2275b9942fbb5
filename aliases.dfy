/**
  `alias` and `get_alias_index`: the alias swap that points the alias at the
  newly loaded index and drops the index it pointed at before, and the
  lookup of that previous index. The search engine's responses (status code,
  the keys of the JSON body) are inputs.
 */
module Aliases {
  import opened Wire

  const StatusOk := 200

  /** Python truthiness of `old_index`: neither None nor the empty string. */
  predicate Truthy(oldIndex: Option<string>) {
    oldIndex.Some? && oldIndex.value != ""
  }

  /**
    The `actions` posted to `_aliases`: first add the new index under the
    alias; then, only when `old_index` is truthy, remove the old index.
   */
  function Actions(aliasName: string, newIndex: string, oldIndex: Option<string>): (actions: seq<AliasAction>)
    ensures |actions| == (if Truthy(oldIndex) then 2 else 1)
    ensures actions[0] == Add(newIndex, aliasName)
    ensures Truthy(oldIndex) ==> actions[1] == RemoveIndex(oldIndex.value)
    ensures forall a :: a in actions && a.RemoveIndex? ==> Truthy(oldIndex) && a.index == oldIndex.value
    ensures forall a :: a in actions && a.Add? ==> a == Add(newIndex, aliasName)
  {
    var add := [Add(newIndex, aliasName)];
    if Truthy(oldIndex) then add + [RemoveIndex(oldIndex.value)] else add
  }

  /**
    `alias(alias_name, new_index, old_index)`: posts the actions and raises
    when the response status is not 200. The actions are sent whatever the
    status turns out to be.
   */
  method Alias(net: Network, aliasName: string, newIndex: string, oldIndex: Option<string>, status: int)
    returns (result: Result<()>)
    modifies net
    ensures net.requests == old(net.requests) + [AliasesPost(Actions(aliasName, newIndex, oldIndex))]
    ensures result.Ok? <==> status == StatusOk
    ensures result.Err? ==> result.error == BadStatus(status)
  {
    var actions := [Add(newIndex, aliasName)];
    if oldIndex.Some? && oldIndex.value != "" {
      actions := actions + [RemoveIndex(oldIndex.value)];
    }
    net.Send(AliasesPost(actions));
    if status != StatusOk {
      return Err(BadStatus(status));
    }
    return Ok(());
  }

  /**
    What `get_alias_index` returns for a response: the first key of the JSON
    body when the status is 200 (IndexError when the body has no key), and
    an exception naming the status otherwise.
   */
  function AliasIndexOf(status: int, keys: seq<string>): (result: Result<string>)
    ensures result.Ok? <==> status == StatusOk && keys != []
    ensures result.Ok? ==> result.value == keys[0]
    ensures status != StatusOk ==> result == Err(BadStatus(status))
    ensures status == StatusOk && keys == [] ==> result == Err(IndexOutOfRange)
  {
    if status != StatusOk then Err(BadStatus(status))
    else if keys == [] then Err(IndexOutOfRange)
    else Ok(keys[0])
  }

  /**
    `get_alias_index(alias_name)`: one GET of `_alias/{alias_name}`; `keys`
    is the list `response.json().keys()` returns, in whatever order Python
    gives.
   */
  method GetAliasIndex(net: Network, aliasName: string, status: int, keys: seq<string>)
    returns (result: Result<string>)
    modifies net
    ensures net.requests == old(net.requests) + [AliasGet(aliasName)]
    ensures result == AliasIndexOf(status, keys)
  {
    net.Send(AliasGet(aliasName));
    if status == StatusOk {
      if keys == [] {
        return Err(IndexOutOfRange);
      }
      return Ok(keys[0]);
    } else {
      return Err(BadStatus(status));
    }
  }
}
